/** Fixed inputs whose outcome follows from the search's contract alone. */
module Scenarios {

  import opened Wrappers
  import opened Graphs
  import opened Constraints
  import opened Search

  /** The 3-cycle on vertices 0, 1, 2 with `k` colours. */
  function Triangle(k: int): (p: Problem)
    ensures Closed(p.graph) && Loopless(p.graph) && Symmetric(p.graph)
  {
    Problem(3, k, map[0 := {1, 2}, 1 := {0, 2}, 2 := {0, 1}])
  }

  /** A 3-cycle cannot be coloured with two colours. */
  lemma TriangleHasNoTwoColoring(s: Assignment)
    ensures !ProperColoring(Triangle(2), s)
  {
    var p := Triangle(2);
    if 0 in s && 1 in s && 2 in s {
      assert 1 in p.graph[0] && 2 in p.graph[1] && 2 in p.graph[0];
    } else {
      assert 0 in Vertexes(p) && 1 in Vertexes(p) && 2 in Vertexes(p);
    }
  }

  /** The triangle with two colours yields the "no solution" signal. */
  method TriangleWithTwoColors() returns (solution: Option<Assignment>)
    ensures solution == None
  {
    solution := BacktrackingSearch(Triangle(2));
    if solution.Some? {
      TriangleHasNoTwoColoring(solution.value);
    }
  }

  /** An empty graph yields the empty colouring at once, not "no solution". */
  method EmptyGraph(k: int) returns (solution: Option<Assignment>)
    ensures solution == Some(map[])
  {
    solution := BacktrackingSearch(Problem(0, k, map[]));
  }

  /** With one-way adjacency a remaining colour can still clash: vertex 1
      lists 0, but 0 lists nobody, so colour 0 remains for 0 while vertex 1
      already has it.  This is why exact undo needs symmetric adjacency. */
  lemma OneWayEdgeTrialClashes()
    ensures var p := Problem(2, 1, map[0 := {}, 1 := {0}]);
            var a: Assignment := map[1 := 0];
            && Within(p, a) && IsUnassigned(p, a, 0)
            && Consistent(p, a)
            && 0 in RemainingColors(p, a, 0)
            && !Consistent(p, a[0 := 0])
  {
    var p := Problem(2, 1, map[0 := {}, 1 := {0}]);
    var a: Assignment := map[1 := 0];
    var b := a[0 := 0];
    assert 1 in b && 0 in p.graph[1] && 0 in b && b[1] == b[0];
  }
}
