# Constraint networks and problem generators

This project models the constraint-network core of a small Python study of
search versus inference on binary constraint problems:

- `graph.py`: nodes with their domains, binary constraints between two nodes,
  and the `ConstraintNetwork` object. Its constructor builds an incidence
  index, `adjacency_list`, that maps each node key to the constraints
  mentioning that key.
- `sudoku_generator.py`: the all-different grid generator. It emits one node
  per cell `i-j` of an n-by-n grid, each with domain `1..n`. It then emits a
  `!=` constraint for every two cells that share a row or a column.
- `random_generator.py`: the random ordered-problem generator. Each new node
  gets a hidden value. The new node is then constrained against every node
  added so far, itself included, with `=`, `<` or `>`, chosen by comparing
  the hidden values.

Files:

- `problem_format.dfy` (module `ProblemFormat`): the six relational operators
  (`Op`), the predicate `Holds` that reads them over integers, the records
  of a problem file (`Line`), and integer ranges used as domains.
- `sequences.dfy` (module `Sequences`): duplicate-free sequences. It proves
  that an element of such a sequence occurs in it exactly once.
- `graph.dfy` (module `Graph`): `Node` and `Constraint` as datatypes, and
  `ConstraintNetwork` as a class. Its fields `nodes`, `constraints` and
  `adjacencyList` are assigned by a constructor and a nested-loop method.
  That method is proved against the specification function `Regenerated`.
  The sample network at the end of `graph.py` is built and its index is
  proved to be A: c1 c2 c3, B: c1 c4, C: c3 c4, D: c2.
- `sudoku_generator.dfy` (module `SudokuGenerator`): `GenerateProblem` keeps
  the loops of the source. Its output is proved equal to the specification
  function `Problem`. Lemmas about `Problem` give the layout, the count and
  the exact set of constraints.
- `random_generator.dfy` (module `RandomGenerator`): the same arrangement.
  It adds the inner loop's `if`/`elif` choice of operator, and proves that
  the hidden values solve the generated problem.

The generators write a file; here, what they write is the returned sequence
of `Line` records. The header lines are `NodesHeader` and
`ConstraintsHeader`. A node line is a name and its domain. A constraint line
is `left`, an operator and `right`. Grid cells are named by their
`(row, column)` pair (`Cell`). Random-problem nodes are named by their index
`i` (the file writes `node<i>`). The values drawn by `randint(0,
problem_size)` are an input sequence `draws`: node `i` gets `draws[i]`.

A constraint whose two endpoints share a key is appended to that key's entry
once, because `graph.py:24` tests both endpoints with a single `or`
(`Graph.IncidentMultiplicity`).

## Model

| member | source | states |
|---|---|---|
| ProblemFormat.Range | sudoku_generator.py:12 | `range(lo, hi)` has `hi - lo` elements and element `k` is `lo + k` |
| ProblemFormat.RangeAscendingExact | sudoku_generator.py:12 | a range is strictly ascending (hence duplicate-free) and holds exactly the integers `lo <= x < hi` |
| Graph.ConstraintNetwork.constructor | graph.py:14-18 | stores the nodes and constraints unchanged; afterwards the index has an entry for every node key and no other key, and each entry is the ordered list of constraints mentioning that key |
| Graph.ConstraintNetwork.GenerateAdjacencyList | graph.py:20-25 | nodes and constraints are left unchanged; every node key's entry is reset and refilled with the constraints mentioning it, in list order; entries of other keys are kept (`Regenerated`) |
| Graph.RegeneratedStep | graph.py:21-25 | processing one more node overwrites exactly that node's entry with its incident constraints, which is the outer loop's invariant step |
| Graph.IncidentSnoc | graph.py:23-25 | examining one more constraint appends it to the entry exactly when `node1.key` or `node2.key` equals the key |
| Graph.IncidentMembers | graph.py:23-25 | a constraint is in a key's entry if and only if it is in the constraint list and one of its endpoints has that key |
| Graph.IncidentMultiplicity | graph.py:24 | each constraint mentioning the key appears in the entry exactly as often as in the constraint list, once per occurrence, even when both endpoints carry the key; other constraints appear zero times |
| Graph.IncidentAppend | graph.py:23-25 | the entry of a concatenated list is the concatenation of the entries, so the entry keeps the relative order of the constraint list |
| Graph.RegeneratedIdempotent | graph.py:20-25 | regenerating the index a second time gives the same dictionary |
| Graph.SampleIncident | graph.py:29-39 | for the four sample constraints, A has c1 c2 c3, B has c1 c4, C has c3 c4, D has c2 |
| Graph.BuildSample | graph.py:29-41 | building the sample network keeps its nodes and constraints and yields exactly the index {A: c1 c2 c3, B: c1 c4, C: c3 c4, D: c2} |
| SudokuGenerator.GenerateProblem | sudoku_generator.py:1-27 | the written lines are exactly `Problem(gridSize)`: the header, the node lines row-major, the header, the constraints in generation order |
| SudokuGenerator.AppendCellConstraints | sudoku_generator.py:15-21 | the two inner loops append, for cell (i, j), a `!=` with each cell below it in its column and then with each cell to its right in its row |
| SudokuGenerator.ProblemShape | sudoku_generator.py:3-25 | the file is the "Nodes" header, n*n node lines, the "Constraints" header and then the collected constraints in order |
| SudokuGenerator.ProblemNodeAt | sudoku_generator.py:7-13 | cell (r, c) is on node line r*n + c, so the n*n cells are listed row-major, each with domain `1..n` |
| SudokuGenerator.DomainExact | sudoku_generator.py:12 | every cell's domain has n values, holds exactly 1..n, and is strictly ascending, so it has no duplicates |
| SudokuGenerator.ConstraintCount | sudoku_generator.py:7-21 | an n-by-n grid gets exactly n*n*(n-1) constraints |
| SudokuGenerator.ConstraintsBeforeLength | sudoku_generator.py:7-21 | the number of constraints collected before each cell, in closed form |
| SudokuGenerator.CellConstraintsMembers | sudoku_generator.py:15-21 | cell (i, j) emits exactly the `!=` constraints from itself to a later cell of its row or its column |
| SudokuGenerator.ConstraintsBeforeMembers | sudoku_generator.py:7-21 | a line has been collected before cell (i, j) if and only if it is such a pair whose left cell precedes (i, j) in row-major order |
| SudokuGenerator.ConstraintsBeforeDistinct | sudoku_generator.py:7-21 | no constraint is collected twice |
| SudokuGenerator.ConstraintsExactlyAllDifferentPairs | sudoku_generator.py:15-21 | every emitted line is a `!=` between two grid cells of one row or one column with the earlier cell on the left, and each such pair occurs exactly once |
| SudokuGenerator.EveryPairOnce | sudoku_generator.py:15-21 | two distinct cells sharing a row or a column are constrained exactly once, earlier cell on the left, and never in the reverse orientation |
| RandomGenerator.RelOp | random_generator.py:19-26 | the operator is `=` iff the hidden values are equal, `<` iff the new value is smaller, `>` iff it is larger, and the new value stands in that relation to the existing one |
| RandomGenerator.GenerateProblem | random_generator.py:3-31 | the written lines are exactly `Problem(problemSize, draws)`, node `i` taking hidden value `draws[i]` |
| RandomGenerator.ProblemShape | random_generator.py:5-31 | the file is the "Nodes" header, one line per node in index order with domain `0..n`, the "Constraints" header and then the constraints in generation order |
| RandomGenerator.NodeConstraintsMembers | random_generator.py:13-27 | node i is constrained against exactly nodes 0..i, itself included, with i on the left and the operator the hidden values dictate |
| RandomGenerator.ConstraintsBeforeMembers | random_generator.py:10-27 | a line is emitted for the first i nodes if and only if it relates a node to one of equal or smaller index with the dictated operator |
| RandomGenerator.ConstraintsBeforeDistinct | random_generator.py:10-27 | no constraint is emitted twice |
| RandomGenerator.ConstraintsExactlyOrderedPairs | random_generator.py:10-27 | each pair `right <= left < n` is constrained exactly once and nothing else is |
| RandomGenerator.ConstraintAt | random_generator.py:18-27 | the constraint of node m against node e <= m is line number m*(m+1)/2 + e of the constraints: each new node's constraints follow the earlier ones, over nodes 0..m in insertion order |
| RandomGenerator.ConstraintsBeforePrefix | random_generator.py:10-27 | adding nodes only appends: the constraints of the first m nodes stay at the front |
| RandomGenerator.ConstraintCount | random_generator.py:10-27 | n nodes give n*(n+1)/2 constraints |
| RandomGenerator.SelfEqualNeverUnequal | random_generator.py:13-26 | every node's constraint with itself is `=`, and `!=` is never emitted |
| RandomGenerator.HiddenValuesSolve | random_generator.py:12-27 | with draws from `0..n` inclusive, each hidden value is in its node's domain and the hidden values satisfy every emitted constraint read as `left op right` |

## Left out

- `experiments.py` is not part of this model. It does wall-clock timing, floating-point averaging and plotting, and calls `arc_consistency` and `search` methods that `graph.py` does not define.
- File I/O (`open`, `write`, `close`) is left out. The written lines are the method's returned sequence, and the problem name (the file name) is dropped.
- Decimal formatting of names and domains (`str`, `','.join`) is left out. Names are cell pairs or node indices, and a domain is a sequence of integers.
- `randint` is replaced by the input sequence `draws`. Only `HiddenValuesSolve` needs the draws to lie in `0..problem_size`, because that is the range `randint` returns.
- The module-level driver calls at the end of the generator files are left out. The sample network of `graph.py` is modelled as `BuildSample`.
- The operator strings (`'>'`, `'<'`, `'='`, `'!='`) are the datatype `Op`.
- `Graph`: `Node` and `Constraint` are values, so object identity and aliasing of nodes shared between constraints are not modelled. `graph.py` never mutates them after construction.
- `RandomGenerator.GenerateProblem`: the `nodes` dictionary is the sequence of hidden values indexed by node number. Its keys `node0, node1, ...` are distinct and iterated in insertion order, which is what the sequence's index order captures.
- `Graph.ConstraintNetwork.GenerateAdjacencyList`: `graph.py:22` inserts keys in the order of `nodes`, but the model's `map` field has no key order.
- `Graph.ConstraintNetwork.constructor`: `graph.py:15-16` shares the caller's lists, while the model stores copies of their values, so later changes to the caller's lists are not seen.
- `SudokuGenerator.GenerateProblem`, `RandomGenerator.GenerateProblem`: the sizes are `nat`, so negative sizes are excluded. For a negative size Python's `range` is empty and only the two header lines are written; every call site passes a positive size.
- `SudokuGenerator.AppendCellConstraints`: the two innermost loops of `generate_problem` are a separate method. It keeps the loops and their order, and the proof of each stays small.
