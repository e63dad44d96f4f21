/** How expectations come to wait for each other: they are created one by one, added to sequences,
    and made to wait for others.  Any history of such registrations, on values. */
module Registrations {
  import opened Reachability

  datatype Registration<T> =
    | Create(x: T)
    | InSequence(x: T, s: nat)
    | After(x: T, older: set<T>)

  /** `last` is the last expectation of each sequence that has one; `newest` the one created last. */
  datatype Registry<T> = Registry(graph: Graph<T>, last: map<nat, T>, newest: set<T>)

  ghost function LastOf<T>(r: Registry<T>, s: nat): set<T> {
    if s in r.last then {r.last[s]} else {}
  }

  ghost predicate Possible<T>(r: Registry<T>, op: Registration<T>) {
    match op
    case Create(x) => x !in r.graph
    case InSequence(x, _) => x in r.graph
    case After(x, older) => x in r.graph && older <= r.graph.Keys
  }

  /** What the registration makes its expectation wait for. */
  ghost function WaitsFor<T>(r: Registry<T>, op: Registration<T>): set<T> {
    match op
    case Create(_) => {}
    case InSequence(x, s) => LastOf(r, s) - {x}
    case After(_, older) => older
  }

  ghost function Register<T>(r: Registry<T>, op: Registration<T>): Registry<T>
    requires Possible(r, op)
  {
    match op
    case Create(x) => Registry(r.graph[x := {}], r.last, {x})
    case InSequence(x, s) => Registry(Waits(r.graph, x, WaitsFor(r, op)), r.last[s := x], r.newest)
    case After(x, _) => r.(graph := Waits(r.graph, x, WaitsFor(r, op)))
  }

  ghost function Nothing<T>(): Registry<T> {
    Registry(map[], map[], {})
  }

  ghost predicate IsHistory<T>(rs: seq<Registry<T>>, ops: seq<Registration<T>>) {
    && |rs| == |ops| + 1
    && rs[0] == Nothing()
    && forall i | 0 <= i < |ops| :: Possible(rs[i], ops[i]) && rs[i + 1] == Register(rs[i], ops[i])
  }

  ghost predicate InOrder<T>(r: Registry<T>) {
    && ClosedGraph(r.graph)
    && r.newest <= r.graph.Keys
    && forall s | s in r.last :: r.last[s] in r.graph
  }

  /** A new expectation has no prerequisites and nothing depends on it. */
  lemma CreateAcyclic<T>(g: Graph<T>, x: T)
    requires ClosedGraph(g) && x !in g
    ensures ClosedGraph(g[x := {}])
    ensures Acyclic(g[x := {}]) <==> Acyclic(g)
  {
    var g' := g[x := {}];
    CyclesStay(g, g');
    if Acyclic(g) {
      forall y | y in g' ensures !Reaches(g', y, y) {
        if n: nat :| Leads(g', y, y, n) {
          SamePaths(g, x, y, y, n);
        }
      }
    }
  }

  lemma {:induction false} SamePaths<T>(g: Graph<T>, x: T, y: T, z: T, n: nat)
    requires ClosedGraph(g) && x !in g && Leads(g[x := {}], y, z, n)
    ensures Leads(g, y, z, n)
    decreases n
  {
    if n > 0 {
      var w :| w in g[x := {}][y] && Leads(g[x := {}], w, z, n - 1);
      SamePaths(g, x, w, z, n - 1);
    }
  }

  /** A registration creates a cycle exactly when it makes an expectation wait for itself or for
      one that depends on it. */
  lemma RegisterAcyclic<T>(r: Registry<T>, op: Registration<T>)
    requires InOrder(r) && Possible(r, op)
    ensures InOrder(Register(r, op))
    ensures Acyclic(Register(r, op).graph) <==> Acyclic(r.graph) && SafeToWait(r.graph, op.x, WaitsFor(r, op))
  {
    if op.Create? {
      CreateAcyclic(r.graph, op.x);
    } else {
      AddEdgesAcyclic(r.graph, op.x, WaitsFor(r, op));
    }
  }

  lemma {:induction false} HistoryInOrder<T>(rs: seq<Registry<T>>, ops: seq<Registration<T>>, i: nat)
    requires IsHistory(rs, ops) && i <= |ops|
    ensures InOrder(rs[i])
  {
    if i > 0 {
      HistoryInOrder(rs, ops, i - 1);
      RegisterAcyclic(rs[i - 1], ops[i - 1]);
    }
  }

  /** Over any history: the graph is acyclic if and only if no registration closed a cycle. */
  lemma {:induction false} AcyclicOverHistories<T>(rs: seq<Registry<T>>, ops: seq<Registration<T>>, n: nat)
    requires IsHistory(rs, ops) && n <= |ops|
    ensures ClosedGraph(rs[n].graph)
    ensures Acyclic(rs[n].graph)
       <==> forall i | 0 <= i < n :: SafeToWait(rs[i].graph, ops[i].x, WaitsFor(rs[i], ops[i]))
  {
    HistoryInOrder(rs, ops, n);
    if n > 0 {
      AcyclicOverHistories(rs, ops, n - 1);
      HistoryInOrder(rs, ops, n - 1);
      RegisterAcyclic(rs[n - 1], ops[n - 1]);
    }
  }

  // ---- The order a sequence imposes ----

  /** The expectation added last to sequence `s`, or one it waits for, is `x`. */
  ghost predicate Behind<T>(r: Registry<T>, s: nat, x: T) {
    s in r.last && Meets(r.graph, r.last[s], x)
  }

  lemma MeetsSurvives<T>(g: Graph<T>, g': Graph<T>, x: T, y: T)
    requires forall z | z in g :: z in g' && g[z] <= g'[z]
    ensures Meets(g, x, y) ==> Meets(g', x, y)
  {
    ReachesSurvives(g, g', x, y);
  }

  /** Whatever is added to a sequence next waits for what was added before. */
  lemma AddedBehind<T>(r: Registry<T>, s: nat, x: T, y: T)
    requires InOrder(r) && y in r.graph && Behind(r, s, x)
    ensures Meets(Register(r, InSequence(y, s)).graph, y, x)
  {
    var g' := Register(r, InSequence(y, s)).graph;
    MeetsSurvives(r.graph, g', r.last[s], x);
    if r.last[s] != y {
      assert Leads(g', y, r.last[s], 0);
      if r.last[s] != x {
        ReachesJoins(g', y, r.last[s], x);
      }
    }
  }

  lemma StaysBehind<T>(r: Registry<T>, op: Registration<T>, s: nat, x: T)
    requires InOrder(r) && Possible(r, op) && Behind(r, s, x)
    ensures Behind(Register(r, op), s, x)
  {
    if op.InSequence? && op.s == s {
      AddedBehind(r, s, x, op.x);
    } else {
      MeetsSurvives(r.graph, Register(r, op).graph, r.last[s], x);
    }
  }

  lemma {:induction false} BehindFromThenOn<T>(rs: seq<Registry<T>>, ops: seq<Registration<T>>, i: nat, j: nat)
    requires IsHistory(rs, ops) && i < j <= |ops| && ops[i].InSequence?
    ensures Behind(rs[j], ops[i].s, ops[i].x)
    decreases j
  {
    if j > i + 1 {
      BehindFromThenOn(rs, ops, i, j - 1);
      HistoryInOrder(rs, ops, j - 1);
      StaysBehind(rs[j - 1], ops[j - 1], ops[i].s, ops[i].x);
    }
  }

  lemma {:induction false} MeetsFromThenOn<T>(rs: seq<Registry<T>>, ops: seq<Registration<T>>,
                                               j: nat, n: nat, x: T, y: T)
    requires IsHistory(rs, ops) && j <= n <= |ops| && Meets(rs[j].graph, y, x)
    ensures Meets(rs[n].graph, y, x)
    decreases n
  {
    if n > j {
      MeetsFromThenOn(rs, ops, j, n - 1, x, y);
      MeetsSurvives(rs[n - 1].graph, rs[n].graph, y, x);
    }
  }

  /** Of two expectations in one sequence the one added later waits for the one added earlier, with
      anything in between, in every registry from then on. */
  lemma SequenceOrders<T>(rs: seq<Registry<T>>, ops: seq<Registration<T>>, i: nat, j: nat, n: nat)
    requires IsHistory(rs, ops) && i < j < n <= |ops|
    requires ops[i].InSequence? && ops[j].InSequence? && ops[i].s == ops[j].s && ops[i].x != ops[j].x
    ensures ops[i].x in Transitive(rs[n].graph, ops[j].x)
  {
    BehindFromThenOn(rs, ops, i, j);
    HistoryInOrder(rs, ops, j);
    AddedBehind(rs[j], ops[j].s, ops[i].x, ops[j].x);
    MeetsFromThenOn(rs, ops, j + 1, n, ops[i].x, ops[j].x);
    CreatedStays(rs, ops, i, n);
  }

  lemma {:induction false} CreatedStays<T>(rs: seq<Registry<T>>, ops: seq<Registration<T>>, i: nat, n: nat)
    requires IsHistory(rs, ops) && i <= n <= |ops|
    ensures rs[i].graph.Keys <= rs[n].graph.Keys
    decreases n
  {
    if i < n {
      CreatedStays(rs, ops, i, n - 1);
    }
  }

  // ---- The clauses of an expectation ----

  /** The registration is a clause of the expectation created last, and any others it names are
      older. */
  ghost predicate OfNewest<T>(r: Registry<T>, op: Registration<T>) {
    !op.Create? ==> op.x in r.newest && (op.After? ==> op.x !in op.older)
  }

  /** Nothing depends on the newest expectation. */
  ghost predicate NewestIsFree<T>(r: Registry<T>) {
    && (forall x, y | x in r.newest && y in r.newest :: x == y)
    && (forall x | x in r.graph :: r.graph[x] !! r.newest)
  }

  lemma {:induction false} NewestStaysFree<T>(rs: seq<Registry<T>>, ops: seq<Registration<T>>, i: nat)
    requires IsHistory(rs, ops) && i <= |ops|
    requires forall k | 0 <= k < |ops| :: OfNewest(rs[k], ops[k])
    ensures NewestIsFree(rs[i])
  {
    if i > 0 {
      NewestStaysFree(rs, ops, i - 1);
      HistoryInOrder(rs, ops, i - 1);
    }
  }

  lemma {:induction false} NoPathInto<T>(g: Graph<T>, newest: T, x: T, n: nat)
    requires ClosedGraph(g) && forall x | x in g :: newest !in g[x]
    ensures !Leads(g, x, newest, n)
    decreases n
  {
    if n > 0 && x in g {
      forall z | z in g[x] ensures !Leads(g, z, newest, n - 1) {
        NoPathInto(g, newest, z, n - 1);
      }
    }
  }

  /** When every clause belongs to the expectation created last, as `EXPECT_CALL` writes them, no
      history closes a cycle. */
  lemma NewestIsSafe<T>(rs: seq<Registry<T>>, ops: seq<Registration<T>>, n: nat)
    requires IsHistory(rs, ops) && n <= |ops|
    requires forall i | 0 <= i < |ops| :: OfNewest(rs[i], ops[i])
    ensures ClosedGraph(rs[n].graph) && Acyclic(rs[n].graph)
  {
    forall i | 0 <= i < n ensures SafeToWait(rs[i].graph, ops[i].x, WaitsFor(rs[i], ops[i])) {
      ClauseIsSafe(rs, ops, i);
    }
    AcyclicOverHistories(rs, ops, n);
  }

  lemma ClauseIsSafe<T>(rs: seq<Registry<T>>, ops: seq<Registration<T>>, i: nat)
    requires IsHistory(rs, ops) && i < |ops|
    requires forall k | 0 <= k < |ops| :: OfNewest(rs[k], ops[k])
    ensures SafeToWait(rs[i].graph, ops[i].x, WaitsFor(rs[i], ops[i]))
  {
    NewestStaysFree(rs, ops, i);
    HistoryInOrder(rs, ops, i);
    var g, x := rs[i].graph, ops[i].x;
    forall l | l in WaitsFor(rs[i], ops[i]) ensures !Meets(g, l, x) {
      if n: nat :| Leads(g, l, x, n) {
        NoPathInto(g, x, l, n);
      }
    }
  }

  /** Not so when older expectations are added to sequences directly: 0, then 1, then 0 again. */
  lemma OlderCanCycle() returns (rs: seq<Registry<int>>, ops: seq<Registration<int>>)
    ensures IsHistory(rs, ops) && !Acyclic(rs[|ops|].graph)
  {
    var r1 := Register(Nothing(), Create(0));
    var r2 := Register(r1, Create(1));
    var r3 := Register(r2, InSequence(0, 5));
    var r4 := Register(r3, InSequence(1, 5));
    var r5 := Register(r4, InSequence(0, 5));
    ops := [Create(0), Create(1), InSequence(0, 5), InSequence(1, 5), InSequence(0, 5)];
    rs := [Nothing(), r1, r2, r3, r4, r5];
    var g := r5.graph;
    assert g[0] == {1} && g[1] == {0};
    assert Leads(g, 1, 0, 0);
    assert Leads(g, 0, 0, 1);
  }
}
