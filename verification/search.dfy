/** The backtracking engine.  The search mutates one shared assignment; the
    model passes that assignment in and hands back both the result and the
    state the assignment is left in, so that the entries a failed call leaves
    behind are visible to its caller exactly as in the program. */
module Search {

  import opened Wrappers
  import opened Graphs
  import opened Constraints
  import opened Heuristics

  /** How the next vertex is chosen. */
  datatype VertexPolicy = AnyUnassigned | MinimumRemainingThenDegree

  /** Which colours are tried for the chosen vertex. */
  datatype ColorPolicy = AllColors | RemainingColorsOnly | LeastConstraining

  /** The configuration `backtracking_search` runs with. */
  const DefaultVertexPolicy := MinimumRemainingThenDegree
  const DefaultColorPolicy := LeastConstraining

  /** Scoring colours asks for the remaining colours of every unassigned
      neighbour, which is only defined when every neighbour is a graph vertex
      other than the scored one. */
  ghost predicate PolicyDefined(p: Problem, cp: ColorPolicy)
  {
    cp.LeastConstraining? ==> Closed(p.graph) && Loopless(p.graph)
  }

  /** A complete, consistent assignment of in-range colours. */
  ghost predicate ProperColoring(p: Problem, s: Assignment)
  {
    && s.Keys == Vertexes(p)
    && Consistent(p, s)
    && forall v :: v in s ==> 0 <= s[v] < p.numColors
  }

  /** The colours `b` gives to vertices `a` did not colour are all in range. */
  ghost predicate NewColorsInRange(p: Problem, a: Assignment, b: Assignment)
  {
    forall v :: v in b && v !in a ==> 0 <= b[v] < p.numColors
  }

  /** When every trial is consistent, so that a failed call undoes all it did:
      adjacency is symmetric and loop-free, the start is consistent, and only
      remaining colours are tried. */
  ghost predicate UndoIsExact(p: Problem, a: Assignment, cp: ColorPolicy)
  {
    Symmetric(p.graph) && Loopless(p.graph) && Consistent(p, a) && !cp.AllColors?
  }

  /** Recording a trial colour keeps the bookkeeping invariants. */
  lemma TrialKeepsInvariants(p: Problem, a: Assignment, post: Assignment, v: Vertex, c: Color)
    requires Within(p, post) && Extends(a, post) && NewColorsInRange(p, a, post)
    requires IsUnassigned(p, a, v) && 0 <= c < p.numColors
    ensures Within(p, post[v := c]) && Extends(a, post[v := c]) && NewColorsInRange(p, a, post[v := c])
  {
  }

  /** Deleting the trial vertex after a failed recursive call keeps the
      bookkeeping invariants, whatever entries the call left behind. */
  lemma UndoKeepsInvariants(p: Problem, a: Assignment, trial: Assignment, after: Assignment, v: Vertex)
    requires Extends(a, trial) && NewColorsInRange(p, a, trial)
    requires Within(p, after) && Extends(trial, after) && NewColorsInRange(p, trial, after)
    requires v !in a
    ensures Within(p, after - {v}) && Extends(a, after - {v}) && NewColorsInRange(p, a, after - {v})
  {
  }

  /** The invariants compose along a successful recursive call. */
  lemma SuccessKeepsInvariants(p: Problem, a: Assignment, trial: Assignment, after: Assignment)
    requires Extends(a, trial) && NewColorsInRange(p, a, trial)
    requires Extends(trial, after) && NewColorsInRange(p, trial, after)
    ensures Extends(a, after) && NewColorsInRange(p, a, after)
  {
  }

  /** Undoing a trial on a vertex the assignment did not colour restores it. */
  lemma UndoRestores(a: Assignment, v: Vertex, c: Color)
    requires v !in a
    ensures a[v := c] - {v} == a
  {
  }

  method ChooseVertex(p: Problem, a: Assignment, vp: VertexPolicy) returns (v: Vertex)
    requires Within(p, a)
    requires !AssignmentIsComplete(p, a)
    ensures IsUnassigned(p, a, v)
  {
    match vp
    case AnyUnassigned =>
      v := ChooseUnassignedVertexWithoutHeuristic(p, a);
    case MinimumRemainingThenDegree =>
      v := ChooseUnassignedVertexWithHeuristic(p, a);
  }

  method CandidateColors(p: Problem, a: Assignment, v: Vertex, cp: ColorPolicy) returns (cs: set<Color>)
    requires Within(p, a)
    requires IsUnassigned(p, a, v)
    requires PolicyDefined(p, cp)
    ensures cs <= Colors(p)
    ensures !cp.AllColors? ==> cs <= RemainingColors(p, a, v)
    ensures cp.LeastConstraining? ==> (cs == {} <==> RemainingColors(p, a, v) == {})
  {
    match cp
    case AllColors =>
      cs := Colors(p);
    case RemainingColorsOnly =>
      cs := RemainingColors(p, a, v);
    case LeastConstraining =>
      ClosedLooplessScorable(p, a, v);
      cs := ColorsWithMinimumColorConstraints(p, a, v);
  }

  /** Depth-first search from `a`.  `result` is `None` for "no solution";
      `post` is the state the shared assignment is left in. */
  method RecursiveBacktrackingSearch(p: Problem, vp: VertexPolicy, cp: ColorPolicy, a: Assignment)
    returns (result: Option<Assignment>, post: Assignment)
    requires Within(p, a)
    requires PolicyDefined(p, cp)
    ensures Within(p, post) && Extends(a, post)
    ensures NewColorsInRange(p, a, post)
    ensures AssignmentIsComplete(p, a) ==> result == Some(a) && post == a
    ensures result.Some? ==> result.value == post && AssignmentIsComplete(p, post)
    ensures result.Some? ==> post == a || Consistent(p, post)
    ensures result.None? && UndoIsExact(p, a, cp) ==> post == a
    decreases |Vertexes(p) - a.Keys|
  {
    if AssignmentIsComplete(p, a) {
      return Some(a), a;
    }
    var vertex := ChooseVertex(p, a, vp);
    var colors := CandidateColors(p, a, vertex, cp);
    post := a;
    var todo := colors;
    while todo != {}
      invariant todo <= colors
      invariant Within(p, post) && Extends(a, post)
      invariant NewColorsInRange(p, a, post)
      invariant UndoIsExact(p, a, cp) ==> post == a
      decreases todo
    {
      HasMember(todo);
      var color :| color in todo;
      todo := todo - {color};
      if UndoIsExact(p, a, cp) {
        AssignKeepsConsistency(p, a, vertex, color);
      }
      TrialKeepsInvariants(p, a, post, vertex, color);
      post := post[vertex := color];
      var ok := AssignmentIsConsistent(p, post);
      if ok {
        FewerUnassigned(Vertexes(p), a.Keys, post.Keys, vertex);
        var trial := post;
        var res, after := RecursiveBacktrackingSearch(p, vp, cp, trial);
        if res.None? {
          UndoKeepsInvariants(p, a, trial, after, vertex);
          post := after - {vertex};
          if UndoIsExact(p, a, cp) {
            UndoRestores(a, vertex, color);
          }
        } else {
          SuccessKeepsInvariants(p, a, trial, after);
          return res, after;
        }
      }
    }
    return None, post;
  }

  /** The search from the empty assignment with the default heuristics. */
  method BacktrackingSearch(p: Problem) returns (solution: Option<Assignment>)
    requires Closed(p.graph) && Loopless(p.graph)
    ensures solution.Some? ==> ProperColoring(p, solution.value)
    ensures Vertexes(p) == {} ==> solution == Some(map[])
  {
    EmptyIsConsistent(p);
    var result, _ := RecursiveBacktrackingSearch(p, DefaultVertexPolicy, DefaultColorPolicy, map[]);
    solution := result;
  }
}
