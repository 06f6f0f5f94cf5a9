/** The all-different grid generator of sudoku_generator.py: one node per cell
    `i-j` of an n-by-n grid with domain 1..n, and a `!=` constraint between
    every two cells that share a row or a column. The file it writes is
    modelled as the sequence of lines it would contain. */
module SudokuGenerator {
  import opened ProblemFormat
  import opened Sequences

  /** A cell `(row, column)`, written `row-column` in the problem file. */
  datatype Cell = Cell(row: nat, col: nat)

  /** The domain of every cell: 1, 2, ..., n. */
  function Domain(n: nat): seq<int>
  {
    Range(1, n + 1)
  }

  /** `c != (s, column of c)` for s = lo, ..., hi-1: the column loop of cell c. */
  function ColumnRun(c: Cell, lo: nat, hi: nat): seq<Line<Cell>>
    requires lo <= hi
  {
    seq(hi - lo, k requires 0 <= k < hi - lo => ConstraintLine(c, Ne, Cell(lo + k, c.col)))
  }

  /** `c != (row of c, t)` for t = lo, ..., hi-1: the row loop of cell c. */
  function RowRun(c: Cell, lo: nat, hi: nat): seq<Line<Cell>>
    requires lo <= hi
  {
    seq(hi - lo, k requires 0 <= k < hi - lo => ConstraintLine(c, Ne, Cell(c.row, lo + k)))
  }

  /** The constraints emitted for cell (i, j): the cells below it in its
      column, then the cells right of it in its row. */
  function CellConstraints(n: nat, i: nat, j: nat): seq<Line<Cell>>
    requires i < n && j < n
  {
    ColumnRun(Cell(i, j), i + 1, n) + RowRun(Cell(i, j), j + 1, n)
  }

  /** The constraints collected before the loops reach cell (i, j): those of
      every cell that comes earlier in row-major order. */
  function ConstraintsBefore(n: nat, i: nat, j: nat): seq<Line<Cell>>
    requires i <= n && j <= n && (i == n ==> j == 0)
    decreases i, j
  {
    if j > 0 then ConstraintsBefore(n, i, j - 1) + CellConstraints(n, i, j - 1)
    else if i > 0 then ConstraintsBefore(n, i - 1, n)
    else []
  }

  /** Node lines of cells (i, 0), ..., (i, j-1). */
  function RowNodes(n: nat, i: nat, j: nat): seq<Line<Cell>>
  {
    seq(j, k requires 0 <= k < j => NodeLine(Cell(i, k), Domain(n)))
  }

  /** Node lines of all cells of rows 0, ..., i-1, row-major. */
  function GridNodes(n: nat, i: nat): seq<Line<Cell>>
  {
    if i == 0 then [] else GridNodes(n, i - 1) + RowNodes(n, i - 1, n)
  }

  /** The whole problem file: header, node lines, header, constraint lines. */
  function Problem(n: nat): seq<Line<Cell>>
  {
    [NodesHeader] + GridNodes(n, n) + [ConstraintsHeader] + ConstraintsBefore(n, n, 0)
  }

  predicate InGrid(n: nat, c: Cell)
  {
    c.row < n && c.col < n
  }

  /** Cell c comes before cell (i, j) in row-major order. */
  predicate Earlier(c: Cell, i: nat, j: nat)
  {
    c.row < i || (c.row == i && c.col < j)
  }

  /** A `!=` between two cells of the grid sharing a row or a column, the
      row-major-earlier cell on the left. */
  predicate AllDifferentPair(n: nat, x: Line<Cell>)
  {
    x.ConstraintLine? && x.op == Ne && InGrid(n, x.left) && InGrid(n, x.right) &&
    ((x.left.row == x.right.row && x.left.col < x.right.col) ||
     (x.left.col == x.right.col && x.left.row < x.right.row))
  }

  /** Each loop iteration appends one line to its run. */
  lemma RunsSnoc(c: Cell, lo: nat, hi: nat)
    requires lo <= hi
    ensures ColumnRun(c, lo, hi + 1) == ColumnRun(c, lo, hi) + [ConstraintLine(c, Ne, Cell(hi, c.col))]
    ensures RowRun(c, lo, hi + 1) == RowRun(c, lo, hi) + [ConstraintLine(c, Ne, Cell(c.row, hi))]
  {
    assert ColumnRun(c, lo, hi + 1)[..hi - lo] == ColumnRun(c, lo, hi);
    assert RowRun(c, lo, hi + 1)[..hi - lo] == RowRun(c, lo, hi);
  }

  lemma RowNodesSnoc(n: nat, i: nat, j: nat)
    ensures RowNodes(n, i, j + 1) == RowNodes(n, i, j) + [NodeLine(Cell(i, j), Domain(n))]
  {
    assert RowNodes(n, i, j + 1)[..j] == RowNodes(n, i, j);
  }

  // Which lines each part of the generator emits.

  lemma ColumnRunMembers(c: Cell, lo: nat, hi: nat, x: Line<Cell>)
    requires lo <= hi
    ensures x in ColumnRun(c, lo, hi)
        <==> x.ConstraintLine? && x.left == c && x.op == Ne && x.right.col == c.col && lo <= x.right.row < hi
  {
    var run := ColumnRun(c, lo, hi);
    if x.ConstraintLine? && x.left == c && x.op == Ne && x.right.col == c.col && lo <= x.right.row < hi {
      assert run[x.right.row - lo] == x;
    }
  }

  lemma RowRunMembers(c: Cell, lo: nat, hi: nat, x: Line<Cell>)
    requires lo <= hi
    ensures x in RowRun(c, lo, hi)
        <==> x.ConstraintLine? && x.left == c && x.op == Ne && x.right.row == c.row && lo <= x.right.col < hi
  {
    var run := RowRun(c, lo, hi);
    if x.ConstraintLine? && x.left == c && x.op == Ne && x.right.row == c.row && lo <= x.right.col < hi {
      assert run[x.right.col - lo] == x;
    }
  }

  /** Cell (i, j) emits exactly the all-different pairs it is the left side of. */
  lemma CellConstraintsMembers(n: nat, i: nat, j: nat, x: Line<Cell>)
    requires i < n && j < n
    ensures x in CellConstraints(n, i, j) <==> x.ConstraintLine? && x.left.row == i && x.left.col == j && AllDifferentPair(n, x)
  {
    ColumnRunMembers(Cell(i, j), i + 1, n, x);
    RowRunMembers(Cell(i, j), j + 1, n, x);
  }

  lemma {:induction false} ConstraintsBeforeMembers(n: nat, i: nat, j: nat, x: Line<Cell>)
    requires i <= n && j <= n && (i == n ==> j == 0)
    ensures x in ConstraintsBefore(n, i, j) <==> x.ConstraintLine? && Earlier(x.left, i, j) && AllDifferentPair(n, x)
    decreases i, j
  {
    if j > 0 {
      ConstraintsBeforeMembers(n, i, j - 1, x);
      CellConstraintsMembers(n, i, j - 1, x);
    } else if i > 0 {
      ConstraintsBeforeMembers(n, i - 1, n, x);
    }
  }

  // No line is emitted twice.

  lemma CellConstraintsDistinct(n: nat, i: nat, j: nat)
    requires i < n && j < n
    ensures Distinct(CellConstraints(n, i, j))
  {
    var col, row := ColumnRun(Cell(i, j), i + 1, n), RowRun(Cell(i, j), j + 1, n);
    forall x | x in col
      ensures x !in row
    {
      ColumnRunMembers(Cell(i, j), i + 1, n, x);
      RowRunMembers(Cell(i, j), j + 1, n, x);
    }
    DistinctConcat(col, row);
  }

  lemma {:induction false} ConstraintsBeforeDistinct(n: nat, i: nat, j: nat)
    requires i <= n && j <= n && (i == n ==> j == 0)
    ensures Distinct(ConstraintsBefore(n, i, j))
    decreases i, j
  {
    if j > 0 {
      var before, cell := ConstraintsBefore(n, i, j - 1), CellConstraints(n, i, j - 1);
      ConstraintsBeforeDistinct(n, i, j - 1);
      CellConstraintsDistinct(n, i, j - 1);
      forall x | x in before
        ensures x !in cell
      {
        ConstraintsBeforeMembers(n, i, j - 1, x);
        CellConstraintsMembers(n, i, j - 1, x);
      }
      DistinctConcat(before, cell);
    } else if i > 0 {
      ConstraintsBeforeDistinct(n, i - 1, n);
    }
  }

  /** The constraints of an n-by-n grid are exactly the all-different pairs,
      each emitted once: every emitted line is a `!=` between two distinct
      cells sharing a row or a column with the earlier cell on the left, and
      every such pair appears exactly once. */
  lemma ConstraintsExactlyAllDifferentPairs(n: nat, x: Line<Cell>)
    ensures multiset(ConstraintsBefore(n, n, 0))[x] == if AllDifferentPair(n, x) then 1 else 0
  {
    ConstraintsBeforeMembers(n, n, 0, x);
    ConstraintsBeforeDistinct(n, n, 0);
    DistinctCount(ConstraintsBefore(n, n, 0), x);
  }

  /** Two distinct cells sharing a row or a column are constrained exactly
      once, with the row-major-earlier cell on the left, and never the other
      way round. */
  lemma EveryPairOnce(n: nat, a: Cell, b: Cell)
    requires InGrid(n, a) && InGrid(n, b) && a != b && (a.row == b.row || a.col == b.col)
    requires a.row < b.row || (a.row == b.row && a.col < b.col)
    ensures multiset(ConstraintsBefore(n, n, 0))[ConstraintLine(a, Ne, b)] == 1
    ensures ConstraintLine(b, Ne, a) !in ConstraintsBefore(n, n, 0)
  {
    ConstraintsExactlyAllDifferentPairs(n, ConstraintLine(a, Ne, b));
    ConstraintsBeforeMembers(n, n, 0, ConstraintLine(b, Ne, a));
  }

  // How many lines are emitted.

  /** Twice the number of constraints collected before cell (i, j). */
  function TwiceCountBefore(n: int, i: int, j: int): int
  {
    n * i * (3 * n - 2 - i) + 2 * j * (n - 1 - i) + j * (2 * n - 1 - j)
  }

  lemma CountStepColumn(n: int, i: int, j: int)
    ensures TwiceCountBefore(n, i, j) == TwiceCountBefore(n, i, j - 1) + 2 * (n - 1 - i) + 2 * (n - j)
  {
  }

  lemma CountStepRow(n: int, i: int)
    ensures TwiceCountBefore(n, i, 0) == TwiceCountBefore(n, i - 1, n)
  {
  }

  lemma {:induction false} ConstraintsBeforeLength(n: nat, i: nat, j: nat)
    requires i <= n && j <= n && (i == n ==> j == 0)
    ensures 2 * |ConstraintsBefore(n, i, j)| == TwiceCountBefore(n, i, j)
    decreases i, j
  {
    if j > 0 {
      ConstraintsBeforeLength(n, i, j - 1);
      CountStepColumn(n, i, j);
    } else if i > 0 {
      ConstraintsBeforeLength(n, i - 1, n);
      CountStepRow(n, i);
    }
  }

  /** An n-by-n grid gets n*n*(n-1) constraints: n*(n-1)/2 per row and per column. */
  lemma ConstraintCount(n: nat)
    ensures |ConstraintsBefore(n, n, 0)| == n * n * (n - 1)
  {
    ConstraintsBeforeLength(n, n, 0);
    TotalCount(n);
  }

  /** Cells of earlier rows sit before the whole of row k in the flat layout. */
  lemma EarlierRowOffset(n: int, r: int, k: int, c: int)
    requires 0 <= r < k && 0 <= c < n
    ensures r * n + c < k * n
  {
    assert k * n - r * n == (k - r) * n;
    assert (k - r) * n >= n by {
      assert (k - r) * n == n + (k - r - 1) * n;
      assert (k - r - 1) * n >= 0;
    }
  }

  lemma {:induction false} GridNodesLength(n: nat, i: nat)
    ensures |GridNodes(n, i)| == i * n
  {
    if i > 0 {
      GridNodesLength(n, i - 1);
      assert (i - 1) * n + n == i * n;
    }
  }

  /** Cell (r, c) is listed at position r*n + c. */
  lemma {:induction false} GridNodesAt(n: nat, i: nat, r: nat, c: nat)
    requires r < i && c < n
    ensures r * n + c < |GridNodes(n, i)| && GridNodes(n, i)[r * n + c] == NodeLine(Cell(r, c), Domain(n))
  {
    GridNodesLength(n, i - 1);
    GridNodesLength(n, i);
    if r < i - 1 {
      EarlierRowOffset(n, r, i - 1, c);
      GridNodesAt(n, i - 1, r, c);
    } else {
      assert r * n + c - (i - 1) * n == c;
    }
  }

  /** Twice the total, n*n*(2n-2), is twice n*n*(n-1). */
  lemma TotalCount(n: int)
    ensures TwiceCountBefore(n, n, 0) == 2 * (n * n * (n - 1))
  {
    assert n * n * (3 * n - 2 - n) == n * n * (2 * (n - 1));
  }

  /** The file is the "Nodes" header, n*n node lines, the "Constraints"
      header and then the constraint lines (n*n*(n-1) of them, by
      ConstraintCount). */
  lemma ProblemShape(n: nat)
    ensures |Problem(n)| == 2 + n * n + |ConstraintsBefore(n, n, 0)|
    ensures Problem(n)[0] == NodesHeader && Problem(n)[1 + n * n] == ConstraintsHeader
    ensures Problem(n)[2 + n * n..] == ConstraintsBefore(n, n, 0)
  {
    GridNodesLength(n, n);
    var prefix := [NodesHeader] + GridNodes(n, n) + [ConstraintsHeader];
    assert |prefix| == 2 + n * n;
    assert Problem(n) == prefix + ConstraintsBefore(n, n, 0);
  }

  /** The node lines list the cells row-major: cell (r, c) is on line 1 + r*n + c. */
  lemma ProblemNodeAt(n: nat, r: nat, c: nat)
    requires r < n && c < n
    ensures 1 + n * n < |Problem(n)|
    ensures 1 + r * n + c < 1 + n * n && Problem(n)[1 + r * n + c] == NodeLine(Cell(r, c), Domain(n))
  {
    GridNodesLength(n, n);
    GridNodesAt(n, n, r, c);
    var k := r * n + c;
    var g := GridNodes(n, n);
    assert Problem(n) == [NodesHeader] + g + ([ConstraintsHeader] + ConstraintsBefore(n, n, 0));
    assert Problem(n)[1 + k] == g[k];
  }

  /** Every cell's domain is 1..n, ascending and without duplicates. */
  lemma DomainExact(n: nat)
    ensures |Domain(n)| == n && forall v :: v in Domain(n) <==> 1 <= v <= n
    ensures forall k, m :: 0 <= k < m < |Domain(n)| ==> Domain(n)[k] < Domain(n)[m]
  {
    RangeAscendingExact(1, n + 1);
  }

  /** The two inner loops of the generator for cell (i, j): append a `!=`
      with every cell below it in its column, then with every cell right of
      it in its row. */
  method AppendCellConstraints(before: seq<Line<Cell>>, n: nat, i: nat, j: nat)
    returns (constraints: seq<Line<Cell>>)
    requires i < n && j < n
    ensures constraints == before + CellConstraints(n, i, j)
  {
    constraints := before;
    for s := i + 1 to n
      invariant constraints == before + ColumnRun(Cell(i, j), i + 1, s)
    {
      RunsSnoc(Cell(i, j), i + 1, s);
      constraints := constraints + [ConstraintLine(Cell(i, j), Ne, Cell(s, j))];
    }
    for t := j + 1 to n
      invariant constraints == before + ColumnRun(Cell(i, j), i + 1, n) + RowRun(Cell(i, j), j + 1, t)
    {
      RunsSnoc(Cell(i, j), j + 1, t);
      constraints := constraints + [ConstraintLine(Cell(i, j), Ne, Cell(i, t))];
    }
  }

  /** Writes the problem file for an n-by-n grid: for every cell, row-major,
      its node line, collecting the constraints with the cells below it and
      right of it; then all collected constraints. */
  method GenerateProblem(gridSize: nat) returns (out: seq<Line<Cell>>)
    ensures out == Problem(gridSize)
  {
    var n := gridSize;
    out := [NodesHeader];
    var constraints: seq<Line<Cell>> := [];
    for i := 0 to n
      invariant out == [NodesHeader] + GridNodes(n, i)
      invariant constraints == ConstraintsBefore(n, i, 0)
    {
      for j := 0 to n
        invariant out == [NodesHeader] + GridNodes(n, i) + RowNodes(n, i, j)
        invariant constraints == ConstraintsBefore(n, i, j)
      {
        RowNodesSnoc(n, i, j);
        out := out + [NodeLine(Cell(i, j), Range(1, n + 1))];
        constraints := AppendCellConstraints(constraints, n, i, j);
        assert constraints == ConstraintsBefore(n, i, j + 1);
      }
      assert ConstraintsBefore(n, i + 1, 0) == ConstraintsBefore(n, i, n);
      assert GridNodes(n, i + 1) == GridNodes(n, i) + RowNodes(n, i, n);
    }
    out := out + [ConstraintsHeader];
    for k := 0 to |constraints|
      invariant out == [NodesHeader] + GridNodes(n, n) + [ConstraintsHeader] + constraints[..k]
    {
      out := out + [constraints[k]];
    }
  }
}
