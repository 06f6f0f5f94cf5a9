/** The constraint network of graph.py: nodes with their domains, binary
    constraints between nodes, and the incidence index `adjacencyList` that
    maps each node key to the constraints mentioning it. */
module Graph {
  import opened ProblemFormat

  /** A variable: its key and its ordered domain. */
  datatype Node = Node(key: string, values: seq<int>)

  /** A binary constraint `node1 constraintType node2`. */
  datatype Constraint = Constraint(node1: Node, node2: Node, constraintType: Op)

  /** The test of the inner loop: one of the two endpoints has this key. */
  predicate Mentions(c: Constraint, key: string)
  {
    c.node1.key == key || c.node2.key == key
  }

  /** The constraints of `cs` that mention `key`, in the order of `cs`. */
  function Incident(cs: seq<Constraint>, key: string): seq<Constraint>
  {
    if cs == [] then []
    else
      var last := cs[|cs| - 1];
      Incident(cs[..|cs| - 1], key) + if Mentions(last, key) then [last] else []
  }

  /** The keys of a list of nodes. */
  function Keys(nodes: seq<Node>): set<string>
  {
    set n | n in nodes :: n.key
  }

  /** The dictionary after the index has been (re)generated from `before`:
      every node key is (re)set to its incident constraints, every other entry
      of `before` is kept. */
  function Regenerated(before: map<string, seq<Constraint>>, nodes: seq<Node>, cs: seq<Constraint>)
    : map<string, seq<Constraint>>
  {
    map k | k in before.Keys + Keys(nodes) :: if k in Keys(nodes) then Incident(cs, k) else before[k]
  }

  /** Filtering distributes over concatenation: the index keeps the relative
      order of the constraint list. */
  lemma {:induction false} IncidentAppend(a: seq<Constraint>, b: seq<Constraint>, key: string)
    ensures Incident(a + b, key) == Incident(a, key) + Incident(b, key)
    decreases |b|
  {
    if b == [] {
      assert a + b == a;
    } else {
      var b' := b[..|b| - 1];
      assert (a + b)[..|a + b| - 1] == a + b';
      IncidentAppend(a, b', key);
    }
  }

  /** Each occurrence of a constraint mentioning `key` is listed exactly once,
      even when both endpoints carry `key`; nothing else is listed. */
  lemma {:induction false} IncidentMultiplicity(cs: seq<Constraint>, key: string, c: Constraint)
    ensures multiset(Incident(cs, key))[c] == if Mentions(c, key) then multiset(cs)[c] else 0
  {
    if cs != [] {
      var init := cs[..|cs| - 1];
      assert cs == init + [cs[|cs| - 1]];
      IncidentMultiplicity(init, key, c);
    }
  }

  /** An entry holds exactly the constraints mentioning its key. */
  lemma IncidentMembers(cs: seq<Constraint>, key: string, c: Constraint)
    ensures c in Incident(cs, key) <==> c in cs && Mentions(c, key)
  {
    IncidentMultiplicity(cs, key, c);
  }

  /** Regenerating twice gives the same dictionary as regenerating once. */
  lemma RegeneratedIdempotent(m: map<string, seq<Constraint>>, nodes: seq<Node>, cs: seq<Constraint>)
    ensures Regenerated(Regenerated(m, nodes, cs), nodes, cs) == Regenerated(m, nodes, cs)
  {
  }

  /** Adding one more node to the processed prefix resets that node's entry. */
  lemma RegeneratedStep(m: map<string, seq<Constraint>>, nodes: seq<Node>, n: nat, cs: seq<Constraint>)
    requires n < |nodes|
    ensures Regenerated(m, nodes[..n + 1], cs)
         == Regenerated(m, nodes[..n], cs)[nodes[n].key := Incident(cs, nodes[n].key)]
  {
    assert nodes[..n + 1] == nodes[..n] + [nodes[n]];
    assert Keys(nodes[..n + 1]) == Keys(nodes[..n]) + {nodes[n].key};
  }

  /** Appending one constraint extends the entry by that constraint exactly when it mentions the key. */
  lemma IncidentSnoc(cs: seq<Constraint>, c: Constraint, key: string)
    ensures Incident(cs + [c], key) == Incident(cs, key) + if Mentions(c, key) then [c] else []
  {
    assert (cs + [c])[..|cs|] == cs;
  }

  class ConstraintNetwork {
    var nodes: seq<Node>
    var constraints: seq<Constraint>
    var adjacencyList: map<string, seq<Constraint>>

    /** Stores the nodes and constraints and builds the index from an empty
        dictionary: every node key gets an entry, and nothing else does. */
    constructor (nodes: seq<Node>, constraints: seq<Constraint>)
      ensures this.nodes == nodes && this.constraints == constraints
      ensures adjacencyList.Keys == Keys(nodes)
      ensures forall k :: k in adjacencyList ==> adjacencyList[k] == Incident(constraints, k)
    {
      this.nodes := nodes;
      this.constraints := constraints;
      adjacencyList := map[];
      new;
      GenerateAdjacencyList();
    }

    /** For every node, resets its entry and appends, in order, each
        constraint one of whose endpoints has the node's key. Nodes and
        constraints are left as they were. */
    method GenerateAdjacencyList()
      modifies this
      ensures nodes == old(nodes) && constraints == old(constraints)
      ensures adjacencyList == Regenerated(old(adjacencyList), nodes, constraints)
    {
      for n := 0 to |nodes|
        invariant nodes == old(nodes) && constraints == old(constraints)
        invariant adjacencyList == Regenerated(old(adjacencyList), nodes[..n], constraints)
      {
        var key := nodes[n].key;
        adjacencyList := adjacencyList[key := []];
        for c := 0 to |constraints|
          invariant nodes == old(nodes) && constraints == old(constraints)
          invariant adjacencyList
                 == Regenerated(old(adjacencyList), nodes[..n], constraints)[key := Incident(constraints[..c], key)]
        {
          assert constraints[..c + 1] == constraints[..c] + [constraints[c]];
          IncidentSnoc(constraints[..c], constraints[c], key);
          if constraints[c].node1.key == key || constraints[c].node2.key == key {
            adjacencyList := adjacencyList[key := adjacencyList[key] + [constraints[c]]];
          } else {
            assert Incident(constraints[..c + 1], key) == Incident(constraints[..c], key) + [];
          }
          assert adjacencyList[key] == Incident(constraints[..c + 1], key);
        }
        assert constraints[..|constraints|] == constraints;
        RegeneratedStep(old(adjacencyList), nodes, n, constraints);
      }
      assert nodes[..|nodes|] == nodes;
    }
  }

  // The sample network built at the end of graph.py.
  const A := Node("A", [1, 2, 3, 4])
  const B := Node("B", [1, 2, 3, 4])
  const C := Node("C", [1, 2, 3, 4])
  const D := Node("D", [1, 2, 3, 4])
  const C1 := Constraint(A, B, Gt)
  const C2 := Constraint(A, D, Lt)
  const C3 := Constraint(A, C, Eq)
  const C4 := Constraint(B, C, Lt)

  /** The entries of the sample network, computed one constraint at a time. */
  lemma SampleIncident()
    ensures Incident([C1, C2, C3, C4], "A") == [C1, C2, C3]
    ensures Incident([C1, C2, C3, C4], "B") == [C1, C4]
    ensures Incident([C1, C2, C3, C4], "C") == [C3, C4]
    ensures Incident([C1, C2, C3, C4], "D") == [C2]
  {
    assert [C1] == [] + [C1];
    assert [C1, C2, C3, C4] == [C1, C2, C3] + [C4];
    assert [C1, C2, C3] == [C1, C2] + [C3];
    assert [C1, C2] == [C1] + [C2];
    forall k | k in ["A", "B", "C", "D"]
      ensures Incident([C1, C2, C3, C4], k)
           == (if Mentions(C1, k) then [C1] else []) + (if Mentions(C2, k) then [C2] else [])
            + (if Mentions(C3, k) then [C3] else []) + (if Mentions(C4, k) then [C4] else [])
    {
      IncidentSnoc([], C1, k);
      IncidentSnoc([C1], C2, k);
      IncidentSnoc([C1, C2], C3, k);
      IncidentSnoc([C1, C2, C3], C4, k);
    }
  }

  /** Builds the sample network; its index is A: c1 c2 c3, B: c1 c4, C: c3 c4, D: c2. */
  method BuildSample() returns (cn: ConstraintNetwork)
    ensures cn.nodes == [A, B, C, D] && cn.constraints == [C1, C2, C3, C4]
    ensures cn.adjacencyList == map["A" := [C1, C2, C3], "B" := [C1, C4], "C" := [C3, C4], "D" := [C2]]
  {
    cn := new ConstraintNetwork([A, B, C, D], [C1, C2, C3, C4]);
    assert Keys([A, B, C, D]) == {"A", "B", "C", "D"} by {
      assert A in [A, B, C, D] && B in [A, B, C, D] && C in [A, B, C, D] && D in [A, B, C, D];
    }
    SampleIncident();
  }
}
