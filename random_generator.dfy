/** The random ordered-CSP generator of random_generator.py. Node `i` (named
    `node<i>` in the file) gets domain 0..n and a hidden value; it is then
    constrained against every node added so far, itself included, with `=`,
    `<` or `>` according to how its hidden value compares with theirs. Nodes
    are named by their index, the random draws are an input sequence, and the
    file it writes is modelled as the sequence of lines it would contain. */
module RandomGenerator {
  import opened ProblemFormat
  import opened Sequences

  /** The operator chosen for a new node with hidden value `newVal` against an
      existing node with hidden value `existingVal`. */
  function RelOp(newVal: int, existingVal: int): (op: Op)
    ensures op == Eq <==> newVal == existingVal
    ensures op == Lt <==> newVal < existingVal
    ensures op == Gt <==> newVal > existingVal
    ensures Holds(newVal, op, existingVal)
  {
    if newVal == existingVal then Eq
    else if newVal < existingVal then Lt
    else Gt
  }

  /** The domain of every node: 0, 1, ..., n. */
  function Domain(n: nat): seq<int>
  {
    Range(0, n + 1)
  }

  /** Node lines of nodes 0, ..., i-1. */
  function NodeLines(n: nat, i: nat): seq<Line<nat>>
  {
    seq(i, k requires 0 <= k < i => NodeLine(k as nat, Domain(n)))
  }

  /** The constraints of node i against the existing nodes 0, ..., e-1, in
      insertion order. */
  function NodeConstraints(values: seq<int>, i: nat, e: nat): seq<Line<nat>>
    requires i < |values| && e <= |values|
  {
    seq(e, k requires 0 <= k < e => ConstraintLine(i, RelOp(values[i], values[k]), k))
  }

  /** The constraints collected once nodes 0, ..., i-1 have been added: node m
      against nodes 0, ..., m, for every m < i. */
  function ConstraintsBefore(values: seq<int>, i: nat): seq<Line<nat>>
    requires i <= |values|
  {
    if i == 0 then [] else ConstraintsBefore(values, i - 1) + NodeConstraints(values, i - 1, i)
  }

  /** The whole problem file for the hidden values `draws`. */
  function Problem(n: nat, draws: seq<int>): seq<Line<nat>>
    requires |draws| == n
  {
    [NodesHeader] + NodeLines(n, n) + [ConstraintsHeader] + ConstraintsBefore(draws, n)
  }

  /** A constraint the generator emits once i nodes exist: a newer (or the
      same) node on the left, an older one on the right, and the operator
      their hidden values dictate. */
  predicate Emitted(values: seq<int>, i: nat, x: Line<nat>)
    requires i <= |values|
  {
    x.ConstraintLine? && x.right <= x.left < i && x.op == RelOp(values[x.left], values[x.right])
  }

  lemma NodeConstraintsMembers(values: seq<int>, i: nat, x: Line<nat>)
    requires i < |values|
    ensures x in NodeConstraints(values, i, i + 1)
        <==> x.ConstraintLine? && x.left == i && x.right <= i && x.op == RelOp(values[i], values[x.right])
  {
    if x.ConstraintLine? && x.left == i && x.right <= i && x.op == RelOp(values[i], values[x.right]) {
      assert NodeConstraints(values, i, i + 1)[x.right] == x;
    }
  }

  /** Adding node i adds exactly the constraints with i on the left. */
  lemma EmittedStep(values: seq<int>, i: nat, x: Line<nat>)
    requires i < |values|
    ensures Emitted(values, i + 1, x)
        <==> Emitted(values, i, x) || (x.ConstraintLine? && x.left == i && x.right <= i && x.op == RelOp(values[i], values[x.right]))
  {
  }

  /** The collected constraints are exactly the emitted ones. */
  lemma {:induction false} ConstraintsBeforeMembers(values: seq<int>, i: nat, x: Line<nat>)
    requires i <= |values|
    ensures x in ConstraintsBefore(values, i) <==> Emitted(values, i, x)
  {
    if i > 0 {
      ConstraintsBeforeMembers(values, i - 1, x);
      NodeConstraintsMembers(values, i - 1, x);
      EmittedStep(values, i - 1, x);
    }
  }

  lemma NodeConstraintsDistinct(values: seq<int>, i: nat)
    requires i < |values|
    ensures Distinct(NodeConstraints(values, i, i + 1))
  {
  }

  /** No constraint is emitted twice. */
  lemma {:induction false} ConstraintsBeforeDistinct(values: seq<int>, i: nat)
    requires i <= |values|
    ensures Distinct(ConstraintsBefore(values, i))
  {
    if i > 0 {
      ConstraintsBeforeDistinct(values, i - 1);
      NodeConstraintsDistinct(values, i - 1);
      var earlier, added := ConstraintsBefore(values, i - 1), NodeConstraints(values, i - 1, i);
      forall x | x in earlier
        ensures x !in added
      {
        ConstraintsBeforeMembers(values, i - 1, x);
        NodeConstraintsMembers(values, i - 1, x);
      }
      DistinctConcat(earlier, added);
    }
  }

  /** Every pair `right <= left < n` is constrained exactly once, with the
      operator the hidden values dictate, and nothing else is constrained. */
  lemma ConstraintsExactlyOrderedPairs(draws: seq<int>, x: Line<nat>)
    ensures multiset(ConstraintsBefore(draws, |draws|))[x] == if Emitted(draws, |draws|, x) then 1 else 0
  {
    ConstraintsBeforeMembers(draws, |draws|, x);
    ConstraintsBeforeDistinct(draws, |draws|);
    DistinctCount(ConstraintsBefore(draws, |draws|), x);
  }

  /** Every node is constrained against itself with `=`, and `!=` is never
      emitted. */
  lemma SelfEqualNeverUnequal(draws: seq<int>, i: nat, x: Line<nat>)
    requires i < |draws|
    ensures ConstraintLine(i, Eq, i) in ConstraintsBefore(draws, |draws|)
    ensures x in ConstraintsBefore(draws, |draws|) ==> x.ConstraintLine? && x.op != Ne
  {
    ConstraintsBeforeMembers(draws, |draws|, ConstraintLine(i, Eq, i));
    ConstraintsBeforeMembers(draws, |draws|, x);
  }

  /** The hidden values solve the generated problem: each lies in its node's
      domain (given draws from 0..n inclusive) and satisfies every emitted
      constraint read as `left op right`. */
  lemma HiddenValuesSolve(n: nat, draws: seq<int>)
    requires |draws| == n
    requires forall k :: 0 <= k < n ==> 0 <= draws[k] <= n
    ensures forall k :: 0 <= k < n ==> draws[k] in Domain(n)
    ensures forall x :: x in ConstraintsBefore(draws, n) ==>
      x.ConstraintLine? && x.left < n && x.right < n && Holds(draws[x.left], x.op, draws[x.right])
  {
    RangeAscendingExact(0, n + 1);
    forall x | x in ConstraintsBefore(draws, n)
      ensures x.ConstraintLine? && x.left < n && x.right < n && Holds(draws[x.left], x.op, draws[x.right])
    {
      ConstraintsBeforeMembers(draws, n, x);
    }
  }

  /** Adding node i adds i+1 constraints, so n nodes give n*(n+1)/2. */
  lemma {:induction false} ConstraintCount(values: seq<int>, i: nat)
    requires i <= |values|
    ensures 2 * |ConstraintsBefore(values, i)| == i * (i + 1)
  {
    if i > 0 {
      ConstraintCount(values, i - 1);
      assert (i - 1) * i + 2 * i == i * (i + 1);
    }
  }

  /** The constraints collected so far stay at the front as nodes are added. */
  lemma {:induction false} ConstraintsBeforePrefix(values: seq<int>, m: nat, i: nat)
    requires m <= i <= |values|
    ensures |ConstraintsBefore(values, m)| <= |ConstraintsBefore(values, i)|
    ensures ConstraintsBefore(values, i)[..|ConstraintsBefore(values, m)|] == ConstraintsBefore(values, m)
    decreases i - m
  {
    if m < i {
      ConstraintsBeforePrefix(values, m, i - 1);
      var whole, earlier := ConstraintsBefore(values, i), ConstraintsBefore(values, i - 1);
      assert whole == earlier + NodeConstraints(values, i - 1, i);
      assert whole[..|ConstraintsBefore(values, m)|] == earlier[..|ConstraintsBefore(values, m)|];
    }
  }

  /** Generation order: the constraints of node m come after those of all
      earlier nodes and run over nodes 0, ..., m in insertion order, so the
      constraint of m against e is number m*(m+1)/2 + e. */
  lemma ConstraintAt(values: seq<int>, i: nat, m: nat, e: nat)
    requires e <= m < i <= |values|
    ensures m * (m + 1) / 2 + e < |ConstraintsBefore(values, i)|
    ensures ConstraintsBefore(values, i)[m * (m + 1) / 2 + e] == ConstraintLine(m, RelOp(values[m], values[e]), e)
  {
    ConstraintCount(values, m);
    ConstraintsBeforePrefix(values, m + 1, i);
    var upTo := ConstraintsBefore(values, m + 1);
    assert upTo == ConstraintsBefore(values, m) + NodeConstraints(values, m, m + 1);
    assert upTo[m * (m + 1) / 2 + e] == NodeConstraints(values, m, m + 1)[e];
    assert ConstraintsBefore(values, i)[m * (m + 1) / 2 + e] == upTo[m * (m + 1) / 2 + e];
  }

  /** The file is the "Nodes" header, one line per node in index order with
      domain 0..n, the "Constraints" header, then the constraints in
      generation order. */
  lemma ProblemShape(n: nat, draws: seq<int>)
    requires |draws| == n
    ensures |Problem(n, draws)| == 2 + n + |ConstraintsBefore(draws, n)|
    ensures Problem(n, draws)[0] == NodesHeader && Problem(n, draws)[n + 1] == ConstraintsHeader
    ensures forall k :: 0 <= k < n ==> Problem(n, draws)[k + 1] == NodeLine(k, Domain(n))
    ensures Problem(n, draws)[n + 2..] == ConstraintsBefore(draws, n)
  {
    var prefix := [NodesHeader] + NodeLines(n, n) + [ConstraintsHeader];
    assert Problem(n, draws) == prefix + ConstraintsBefore(draws, n);
    assert forall k :: 0 <= k < n ==> prefix[k + 1] == NodeLines(n, n)[k];
  }

  lemma NodeLinesSnoc(n: nat, i: nat)
    ensures NodeLines(n, i + 1) == NodeLines(n, i) + [NodeLine(i, Domain(n))]
  {
    assert NodeLines(n, i + 1)[..i] == NodeLines(n, i);
  }

  lemma NodeConstraintsSnoc(values: seq<int>, i: nat, e: nat)
    requires i < |values| && e < |values|
    ensures NodeConstraints(values, i, e + 1)
         == NodeConstraints(values, i, e) + [ConstraintLine(i, RelOp(values[i], values[e]), e)]
  {
    assert NodeConstraints(values, i, e + 1)[..e] == NodeConstraints(values, i, e);
  }

  /** Writes the problem file: for each node in turn, records its hidden
      value `draws[i]`, writes its line and constrains it against every
      recorded node, itself included; then writes all constraints. */
  method GenerateProblem(problemSize: nat, draws: seq<int>) returns (out: seq<Line<nat>>)
    requires |draws| == problemSize
    ensures out == Problem(problemSize, draws)
  {
    var n := problemSize;
    out := [NodesHeader];
    var nodes: seq<int> := [];
    var constraints: seq<Line<nat>> := [];
    for i := 0 to n
      invariant nodes == draws[..i]
      invariant out == [NodesHeader] + NodeLines(n, i)
      invariant constraints == ConstraintsBefore(draws, i)
    {
      var nodeVal := draws[i];
      nodes := nodes + [nodeVal];
      NodeLinesSnoc(n, i);
      out := out + [NodeLine(i, Range(0, n + 1))];
      for e := 0 to |nodes|
        invariant constraints == ConstraintsBefore(draws, i) + NodeConstraints(draws, i, e)
      {
        assert nodes[e] == draws[e];
        var constraintType := Ne;
        var existingVal := nodes[e];
        if nodeVal == existingVal {
          constraintType := Eq;
        } else if nodeVal < existingVal {
          constraintType := Lt;
        } else {
          constraintType := Gt;
        }
        NodeConstraintsSnoc(draws, i, e);
        constraints := constraints + [ConstraintLine(i, constraintType, e)];
      }
    }
    out := out + [ConstraintsHeader];
    for k := 0 to |constraints|
      invariant out == [NodesHeader] + NodeLines(n, n) + [ConstraintsHeader] + constraints[..k]
    {
      out := out + [constraints[k]];
    }
  }
}
