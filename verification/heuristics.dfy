/** Variable and value ordering: minimum remaining values with the degree
    tie-break for choosing a vertex, least constraining value for choosing
    its colours.  Each filter keeps every element of its input that attains
    the extremum of its score. */
module Heuristics {

  import opened Graphs
  import opened Constraints

  /** The members of `s` with the fewest remaining colours, found in one
      pass that starts from an arbitrary member and restarts whenever a
      smaller count appears. */
  method VertexesWithMinimumRemainingColors(p: Problem, a: Assignment, s: set<Vertex>)
    returns (r: set<Vertex>)
    requires Within(p, a)
    requires s != {}
    requires forall v :: v in s ==> IsUnassigned(p, a, v)
    ensures r != {} && r <= s
    ensures forall v, u :: v in r && u in s ==> NumRemainingColors(p, a, v) <= NumRemainingColors(p, a, u)
    ensures forall v :: v in s && (forall u :: u in s ==> NumRemainingColors(p, a, v) <= NumRemainingColors(p, a, u)) ==>
                          v in r
  {
    HasMember(s);
    var first :| first in s;
    var minimum := NumRemainingColors(p, a, first);
    ghost var best := first;
    r := {first};
    var todo := s;
    while todo != {}
      invariant todo <= s && r <= s && best in r
      invariant minimum == NumRemainingColors(p, a, best)
      invariant forall v :: v in r ==> NumRemainingColors(p, a, v) == minimum
      invariant forall u :: u in s && u !in todo ==> minimum <= NumRemainingColors(p, a, u)
      invariant forall u :: u in s && u !in todo && NumRemainingColors(p, a, u) == minimum ==> u in r
      decreases todo
    {
      HasMember(todo);
      var vertex :| vertex in todo;
      var count := NumRemainingColors(p, a, vertex);
      if count < minimum {
        minimum := count;
        r := {vertex};
        best := vertex;
      } else if count == minimum {
        r := r + {vertex};
      }
      todo := todo - {vertex};
    }
  }

  /** The members of `s` with the most unassigned neighbours; the mirror
      image of `VertexesWithMinimumRemainingColors`. */
  method VertexesWithMaximumVertexConstraints(p: Problem, a: Assignment, s: set<Vertex>)
    returns (r: set<Vertex>)
    requires Within(p, a)
    requires s != {}
    requires forall v :: v in s ==> IsUnassigned(p, a, v)
    ensures r != {} && r <= s
    ensures forall v, u :: v in r && u in s ==> NumVertexConstraints(p, a, u) <= NumVertexConstraints(p, a, v)
    ensures forall v :: v in s && (forall u :: u in s ==> NumVertexConstraints(p, a, u) <= NumVertexConstraints(p, a, v)) ==>
                          v in r
  {
    HasMember(s);
    var first :| first in s;
    var maximum := NumVertexConstraints(p, a, first);
    ghost var best := first;
    r := {first};
    var todo := s;
    while todo != {}
      invariant todo <= s && r <= s && best in r
      invariant maximum == NumVertexConstraints(p, a, best)
      invariant forall v :: v in r ==> NumVertexConstraints(p, a, v) == maximum
      invariant forall u :: u in s && u !in todo ==> NumVertexConstraints(p, a, u) <= maximum
      invariant forall u :: u in s && u !in todo && NumVertexConstraints(p, a, u) == maximum ==> u in r
      decreases todo
    {
      HasMember(todo);
      var vertex :| vertex in todo;
      var count := NumVertexConstraints(p, a, vertex);
      if count > maximum {
        maximum := count;
        r := {vertex};
        best := vertex;
      } else if count == maximum {
        r := r + {vertex};
      }
      todo := todo - {vertex};
    }
  }

  /** Any unassigned vertex (the first one the set iteration yields). */
  method ChooseUnassignedVertexWithoutHeuristic(p: Problem, a: Assignment) returns (v: Vertex)
    requires Within(p, a)
    requires !AssignmentIsComplete(p, a)
    ensures IsUnassigned(p, a, v)
  {
    var unassigned := UnassignedVertexes(p, a);
    HasMember(unassigned);
    v :| v in unassigned;
  }

  /** An unassigned vertex with the fewest remaining colours and, among
      those, the most unassigned neighbours. */
  method ChooseUnassignedVertexWithHeuristic(p: Problem, a: Assignment) returns (v: Vertex)
    requires Within(p, a)
    requires !AssignmentIsComplete(p, a)
    ensures IsUnassigned(p, a, v)
    ensures forall u :: IsUnassigned(p, a, u) ==> NumRemainingColors(p, a, v) <= NumRemainingColors(p, a, u)
    ensures forall u :: IsUnassigned(p, a, u) && NumRemainingColors(p, a, u) == NumRemainingColors(p, a, v) ==>
                          NumVertexConstraints(p, a, u) <= NumVertexConstraints(p, a, v)
  {
    var unassigned := UnassignedVertexes(p, a);
    var fewest := VertexesWithMinimumRemainingColors(p, a, unassigned);
    var busiest := VertexesWithMaximumVertexConstraints(p, a, fewest);
    HasMember(busiest);
    v :| v in busiest;
    forall u | IsUnassigned(p, a, u) && NumRemainingColors(p, a, u) == NumRemainingColors(p, a, v)
      ensures NumVertexConstraints(p, a, u) <= NumVertexConstraints(p, a, v)
    {
      assert u in unassigned;
      assert u in fewest;
    }
  }

  /** The remaining colours of `v` whose assignment rules out the fewest
      colours of its neighbours; empty exactly when none remain. */
  method ColorsWithMinimumColorConstraints(p: Problem, a: Assignment, v: Vertex) returns (r: set<Color>)
    requires Within(p, a)
    requires IsUnassigned(p, a, v)
    requires RemainingColors(p, a, v) != {} ==> ScorableNeighbours(p, a, v)
    ensures r <= RemainingColors(p, a, v)
    ensures r == {} <==> RemainingColors(p, a, v) == {}
    ensures forall c, d :: c in r && d in RemainingColors(p, a, v) ==> ColorImpact(p, a, v, c) <= ColorImpact(p, a, v, d)
    ensures forall c :: c in RemainingColors(p, a, v) &&
                        (forall d :: d in RemainingColors(p, a, v) ==> ColorImpact(p, a, v, c) <= ColorImpact(p, a, v, d)) ==>
                        c in r
  {
    var remaining := RemainingColors(p, a, v);
    if remaining == {} {
      return {};
    }
    HasMember(remaining);
    var first :| first in remaining;
    var minimum := NumColorConstraints(p, a, v, first);
    ghost var best := first;
    r := {first};
    var todo := remaining;
    while todo != {}
      invariant todo <= remaining && r <= remaining && best in r
      invariant minimum == ColorImpact(p, a, v, best)
      invariant forall c :: c in r ==> ColorImpact(p, a, v, c) == minimum
      invariant forall d :: d in remaining && d !in todo ==> minimum <= ColorImpact(p, a, v, d)
      invariant forall d :: d in remaining && d !in todo && ColorImpact(p, a, v, d) == minimum ==> d in r
      decreases todo
    {
      HasMember(todo);
      var color :| color in todo;
      var count := NumColorConstraints(p, a, v, color);
      if count < minimum {
        minimum := count;
        r := {color};
        best := color;
      } else if count == minimum {
        r := r + {color};
      }
      todo := todo - {color};
    }
  }
}
