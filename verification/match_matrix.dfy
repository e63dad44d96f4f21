/** The element/matcher matrix, and its use as a binary counter that enumerates all graphs. */
module MatchMatrices {
  import opened Bytes
  import opened Matching

  // ---- The matrix as a number ----

  function Pow2(n: nat): nat {
    if n == 0 then 1 else 2 * Pow2(n - 1)
  }

  /** The cells read as a binary number, first cell least significant. */
  function Value(cells: seq<bool>): nat {
    if cells == [] then 0 else (if cells[0] then 1 else 0) + 2 * Value(cells[1..])
  }

  function Increment(cells: seq<bool>): (r: seq<bool>)
    ensures |r| == |cells|
  {
    if cells == [] then [] else
    if !cells[0] then [true] + cells[1..] else [false] + Increment(cells[1..])
  }

  predicate AllOnes(cells: seq<bool>) {
    forall i | 0 <= i < |cells| :: cells[i]
  }

  lemma {:induction false} ValueBound(cells: seq<bool>)
    ensures Value(cells) < Pow2(|cells|)
    ensures Value(cells) == Pow2(|cells|) - 1 <==> AllOnes(cells)
  {
    if cells != [] {
      ValueBound(cells[1..]);
      assert AllOnes(cells) <==> cells[0] && AllOnes(cells[1..]) by {
        assert cells == [cells[0]] + cells[1..];
      }
    }
  }

  lemma {:induction false} ValueInjective(a: seq<bool>, b: seq<bool>)
    requires |a| == |b| && Value(a) == Value(b)
    ensures a == b
  {
    if a != [] {
      ValueInjective(a[1..], b[1..]);
      assert a == [a[0]] + a[1..] && b == [b[0]] + b[1..];
    }
  }

  /** `Increment` adds one, wrapping to the empty graph from the full one. */
  lemma {:induction false} IncrementAddsOne(cells: seq<bool>)
    ensures Value(Increment(cells)) ==
            if Value(cells) == Pow2(|cells|) - 1 then 0 else Value(cells) + 1
  {
    if cells != [] {
      IncrementAddsOne(cells[1..]);
      ValueBound(cells[1..]);
    }
  }

  /** Where the carry stops. */
  lemma {:induction false} CarryStops(cells: seq<bool>, k: nat)
    requires k <= |cells|
    requires forall i | 0 <= i < k :: cells[i]
    requires k < |cells| ==> !cells[k]
    ensures Increment(cells) == seq(|cells|, i requires 0 <= i < |cells| =>
              if i < k then false else if i == k then true else cells[i])
    decreases k
  {
    if k > 0 {
      CarryStops(cells[1..], k - 1);
    }
  }

  lemma CountsUp(cells: seq<bool>, k: nat)
    requires k <= |cells|
    requires forall i | 0 <= i < k :: cells[i]
    requires k < |cells| ==> !cells[k]
    ensures Increment(cells) == seq(|cells|, i requires 0 <= i < |cells| =>
              if i < k then false else if i == k then true else cells[i])
    ensures k < |cells| <==> Value(cells) != Pow2(|cells|) - 1
    ensures Value(Increment(cells)) == if k < |cells| then Value(cells) + 1 else 0
  {
    CarryStops(cells, k);
    ValueBound(cells);
    IncrementAddsOne(cells);
  }

  function Empty(n: nat): seq<bool> {
    seq(n, i => false)
  }

  function Iterate(n: nat, k: nat): (cells: seq<bool>)
    ensures |cells| == n
  {
    if k == 0 then Empty(n) else Increment(Iterate(n, k - 1))
  }

  lemma {:induction false} EmptyIsZero(n: nat)
    ensures Value(Empty(n)) == 0
  {
    if n > 0 {
      EmptyIsZero(n - 1);
      assert Empty(n)[1..] == Empty(n - 1);
    }
  }

  lemma {:induction false} IterateCounts(n: nat, k: nat)
    requires k < Pow2(n)
    ensures Value(Iterate(n, k)) == k
  {
    if k == 0 {
      EmptyIsZero(n);
    } else {
      IterateCounts(n, k - 1);
      IncrementAddsOne(Iterate(n, k - 1));
    }
  }

  /** Counting up from the empty graph meets every graph exactly once before the first
      wrap-around, which is call number 2^n. */
  lemma EnumeratesAllGraphs(n: nat, cells: seq<bool>)
    requires |cells| == n
    ensures Value(cells) < Pow2(n) && Iterate(n, Value(cells)) == cells
    ensures forall k | 0 <= k < Pow2(n) && Iterate(n, k) == cells :: k == Value(cells)
    ensures AllOnes(cells) <==> Value(cells) == Pow2(n) - 1
  {
    ValueBound(cells);
    IterateCounts(n, Value(cells));
    ValueInjective(Iterate(n, Value(cells)), cells);
    forall k | 0 <= k < Pow2(n) && Iterate(n, k) == cells ensures k == Value(cells) {
      IterateCounts(n, k);
    }
  }

  lemma CellInRange(i: nat, j: nat, rows: nat, cols: nat)
    requires i < rows && j < cols
    ensures i * cols + j < rows * cols
  {
    assert (i + 1) * cols <= rows * cols;
  }

  // ---- The cells as edges ----

  /** Cells in element-major order, `cols` to an element: cell `k` stands for the edge from element
      `k / cols` to matcher `k % cols`. */
  function EdgesOf(cells: seq<bool>, cols: nat): set<(int, int)> {
    if cols == 0 then {} else set k | 0 <= k < |cells| && cells[k] :: (k / cols, k % cols)
  }

  /** Pairs of one of `rows` elements and one of `cols` matchers. */
  ghost predicate Between(rows: nat, cols: nat, edges: set<(int, int)>) {
    forall e | e in edges :: 0 <= e.0 < rows && 0 <= e.1 < cols
  }

  lemma RowOfCell(k: nat, rows: nat, cols: nat)
    requires k < rows * cols
    ensures cols > 0 && 0 <= k / cols < rows && 0 <= k % cols < cols
  {
    DivisionBound(k, rows, cols);
  }

  lemma DivisionBound(k: nat, rows: nat, cols: nat)
    requires cols > 0 && k < rows * cols
    ensures k / cols < rows
  {
    var q := k / cols;
    assert q * cols <= k < rows * cols;
    assert (rows - q) * cols > 0;
  }

  lemma PairOfCell(i: nat, j: nat, cols: nat)
    requires j < cols
    ensures (i * cols + j) / cols == i && (i * cols + j) % cols == j
  {
    DivisionIsUnique(i * cols + j, cols, i, j);
  }

  lemma CellOfPair(cells: seq<bool>, rows: nat, cols: nat, i: int, j: int)
    requires |cells| == rows * cols && 0 <= i < rows && 0 <= j < cols
    ensures 0 <= i * cols + j < |cells|
    ensures (i, j) in EdgesOf(cells, cols) <==> cells[i * cols + j]
  {
    CellInRange(i, j, rows, cols);
    PairOfCell(i, j, cols);
    if (i, j) in EdgesOf(cells, cols) {
      var k :| 0 <= k < |cells| && cells[k] && k / cols == i && k % cols == j;
      assert k == k / cols * cols + k % cols;
    }
  }

  lemma SameEdgesSameCells(a: seq<bool>, b: seq<bool>, rows: nat, cols: nat)
    requires |a| == |b| == rows * cols && EdgesOf(a, cols) == EdgesOf(b, cols)
    ensures a == b
  {
    forall k | 0 <= k < |a| ensures a[k] == b[k] {
      RowOfCell(k, rows, cols);
      assert k == k / cols * cols + k % cols;
      CellOfPair(a, rows, cols, k / cols, k % cols);
      CellOfPair(b, rows, cols, k / cols, k % cols);
    }
  }

  lemma CellsFor(rows: nat, cols: nat, edges: set<(int, int)>) returns (cells: seq<bool>)
    requires Between(rows, cols, edges)
    ensures |cells| == rows * cols && EdgesOf(cells, cols) == edges
  {
    cells := seq(rows * cols, k requires 0 <= k < rows * cols => cols > 0 && (k / cols, k % cols) in edges);
    forall e | e in edges ensures e in EdgesOf(cells, cols) {
      CellOfPair(cells, rows, cols, e.0, e.1);
      PairOfCell(e.0, e.1, cols);
    }
  }

  /** Counting up from the matrix without edges meets every set of pairs exactly once before the
      first wrap-around. */
  lemma EnumeratesAllEdgeSets(rows: nat, cols: nat, edges: set<(int, int)>) returns (k: nat)
    requires Between(rows, cols, edges)
    ensures k < Pow2(rows * cols) && EdgesOf(Iterate(rows * cols, k), cols) == edges
    ensures forall n | 0 <= n < Pow2(rows * cols) && EdgesOf(Iterate(rows * cols, n), cols) == edges :: n == k
  {
    var cells := CellsFor(rows, cols, edges);
    EnumeratesAllGraphs(rows * cols, cells);
    k := Value(cells);
    forall n | 0 <= n < Pow2(rows * cols) && EdgesOf(Iterate(rows * cols, n), cols) == edges ensures n == k {
      SameEdgesSameCells(Iterate(rows * cols, n), cells, rows, cols);
    }
  }

  /** Writing one cell changes one pair. */
  lemma OneCell(cells: seq<bool>, rows: nat, cols: nat, i: nat, j: nat, b: bool)
    requires |cells| == rows * cols && i < rows && j < cols
    ensures i * cols + j < |cells|
    ensures EdgesOf(cells[i * cols + j := b], cols)
         == if b then EdgesOf(cells, cols) + {(i, j)} else EdgesOf(cells, cols) - {(i, j)}
  {
    CellOfPair(cells, rows, cols, i, j);
    PairOfCell(i, j, cols);
    var at := i * cols + j;
    var after := cells[at := b];
    forall k | 0 <= k < |cells| && k != at ensures after[k] == cells[k] && (k / cols, k % cols) != (i, j) {
      assert k == k / cols * cols + k % cols;
    }
    assert after[at] == b;
  }

  class MatchMatrix {
    const numElements: nat
    const numMatchers: nat
    const matched: array<bool>

    ghost predicate Valid() {
      matched.Length == numElements * numMatchers
    }

    constructor (numElements: nat, numMatchers: nat)
      ensures Valid() && this.numElements == numElements && this.numMatchers == numMatchers
      ensures fresh(matched) && matched[..] == Empty(numElements * numMatchers)
      ensures AsGraph().edges == {}
    {
      this.numElements := numElements;
      this.numMatchers := numMatchers;
      matched := new bool[numElements * numMatchers](i => false);
    }

    function SpaceIndex(ilhs: nat, irhs: nat): (k: nat)
      requires Valid() && ilhs < numElements && irhs < numMatchers
      ensures k < matched.Length
    {
      CellInRange(ilhs, irhs, numElements, numMatchers);
      ilhs * numMatchers + irhs
    }

    predicate HasEdge(ilhs: nat, irhs: nat)
      requires Valid() && ilhs < numElements && irhs < numMatchers
      reads matched
    {
      matched[SpaceIndex(ilhs, irhs)]
    }

    /** Sets or clears one edge and no other. */
    method SetEdge(ilhs: nat, irhs: nat, b: bool)
      requires Valid() && ilhs < numElements && irhs < numMatchers
      modifies matched
      ensures AsGraph().edges
           == if b then old(AsGraph().edges) + {(ilhs, irhs)} else old(AsGraph().edges) - {(ilhs, irhs)}
    {
      EdgesAreCells();
      ghost var was := matched[..];
      OneCell(was, numElements, numMatchers, ilhs, irhs, b);
      matched[SpaceIndex(ilhs, irhs)] := b;
      assert matched[..] == was[ilhs * numMatchers + irhs := b];
      EdgesAreCells();
    }

    /** The graph says of every cell whether it is set. */
    lemma EdgesAreCells()
      requires Valid()
      ensures AsGraph().edges == EdgesOf(matched[..], numMatchers)
    {
      var cells, edges := matched[..], EdgesOf(matched[..], numMatchers);
      forall i: int, j: int | 0 <= i < numElements && 0 <= j < numMatchers
        ensures HasEdge(i, j) <==> (i, j) in edges
      {
        CellOfPair(cells, numElements, numMatchers, i, j);
      }
      forall e | e in edges ensures 0 <= e.0 < numElements && 0 <= e.1 < numMatchers {
        var k :| 0 <= k < |cells| && cells[k] && e == (k / numMatchers, k % numMatchers);
        RowOfCell(k, numElements, numMatchers);
      }
    }

    /** The graph the matrix stands for. */
    function AsGraph(): (g: Graph)
      requires Valid()
      reads matched
      ensures g.Bounded() && g.lhs == numElements && g.rhs == numMatchers
    {
      Graph(numElements, numMatchers,
            set i: int, j: int | 0 <= i < numElements && 0 <= j < numMatchers && HasEdge(i, j) :: (i, j))
    }

    /** Adds one to the matrix; false exactly when that wraps to the empty graph. */
    method NextGraph() returns (more: bool)
      requires Valid()
      modifies matched
      ensures matched[..] == Increment(old(matched[..]))
      ensures more <==> Value(old(matched[..])) != Pow2(matched.Length) - 1
      ensures more ==> Value(matched[..]) == Value(old(matched[..])) + 1
      ensures !more ==> Value(matched[..]) == 0
    {
      ghost var was := matched[..];
      for ilhs := 0 to numElements
        invariant ilhs * numMatchers <= |was| == matched.Length
        invariant forall k | 0 <= k < ilhs * numMatchers :: was[k] && !matched[k]
        invariant forall k | ilhs * numMatchers <= k < |was| :: matched[k] == was[k]
      {
        CellsOfRow(ilhs, numElements, numMatchers);
        for irhs := 0 to numMatchers
          invariant forall k | 0 <= k < ilhs * numMatchers + irhs :: was[k] && !matched[k]
          invariant forall k | ilhs * numMatchers + irhs <= k < |was| :: matched[k] == was[k]
        {
          var k := SpaceIndex(ilhs, irhs);
          if !matched[k] {
            matched[k] := true;
            CountsUp(was, k);
            return true;
          }
          matched[k] := false;
        }
      }
      CountsUp(was, |was|);
      return false;
    }
  }

  lemma CellsOfRow(i: nat, rows: nat, cols: nat)
    requires i < rows
    ensures i * cols + cols == (i + 1) * cols <= rows * cols
  {
  }
}
