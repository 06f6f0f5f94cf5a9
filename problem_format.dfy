/** The vocabulary shared by the constraint network and the two problem generators:
    relational operators, the records a problem description is made of, and the
    integer ranges used for domains. */
module ProblemFormat {

  /** The six relational operators a constraint may carry. */
  datatype Op = Lt | Gt | Le | Ge | Eq | Ne

  /** Whether `a op b` holds. */
  predicate Holds(a: int, op: Op, b: int)
  {
    match op
    case Lt => a < b
    case Gt => a > b
    case Le => a <= b
    case Ge => a >= b
    case Eq => a == b
    case Ne => a != b
  }

  /** One line of a problem description: the "Nodes" header, a node with its
      ordered domain, the "Constraints" header, or a constraint `left,op,right`.
      Names are kept abstract instead of formatted as text. */
  datatype Line<Name> =
    | NodesHeader
    | NodeLine(name: Name, domain: seq<int>)
    | ConstraintsHeader
    | ConstraintLine(left: Name, op: Op, right: Name)

  /** The integers `lo, lo+1, ..., hi-1` in ascending order (empty when `hi <= lo`). */
  function Range(lo: int, hi: int): (r: seq<int>)
    ensures |r| == if lo <= hi then hi - lo else 0
    ensures forall k :: 0 <= k < |r| ==> r[k] == lo + k
    decreases hi - lo
  {
    if hi <= lo then [] else Range(lo, hi - 1) + [hi - 1]
  }

  /** A range is strictly ascending (so free of duplicates) and holds exactly
      the integers from `lo` up to but excluding `hi`. */
  lemma RangeAscendingExact(lo: int, hi: int)
    ensures forall k, m :: 0 <= k < m < |Range(lo, hi)| ==> Range(lo, hi)[k] < Range(lo, hi)[m]
    ensures forall x :: x in Range(lo, hi) <==> lo <= x < hi
  {
    var r := Range(lo, hi);
    forall x | lo <= x < hi
      ensures x in r
    {
      assert r[x - lo] == x;
    }
  }
}
