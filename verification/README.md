# Graph colouring by backtracking search — a Dafny model

This project models the constraint solver of `color_graph.py`: the `Problem`
class that colours a graph with a fixed number of colours by depth-first
backtracking over a partial assignment, choosing the next vertex by
minimum remaining values with a degree tie-break, and the colours to try by
least constraining value.

- `graphs.dfy` (module `Graphs`): the problem (adjacency map from vertex to
  neighbour set, colour count), the colour universe `0 .. num_colors-1`,
  unassigned vertices, completeness, and the graph shapes the proofs need
  (symmetric, loop-free, closed adjacency).
- `constraints.dfy` (module `Constraints`): the consistency scan, the
  remaining colours of a vertex, its dynamic degree, and the
  least-constraining score of a colour together with an independent
  reference count (`ColorImpact`: the neighbours that would lose the colour).
- `heuristics.dfy` (module `Heuristics`): the two vertex filters, the two
  vertex choosers, and the colour filter.
- `search.dfy` (module `Search`): the recursive search and its entry point.
- `scenarios.dfy` (module `Scenarios`): fixed inputs whose outcome follows
  from the search's contract.

Modelling decisions:

- The program mutates one shared dictionary. The search is modelled as a
  recursive method that takes the assignment and returns both the result
  (`None` for "no solution") and the state the assignment is left in. A
  failed call can therefore hand back leftover entries to its caller, as in
  the program.
- Python's `next(iter(s))` and `for x in s` over a set pick in an order the
  model does not know. Each pick is a `:|` choice, so every method contract
  holds for every order.
- `colors()` reads the module-level `num_colors` rather than the field; the
  model uses the problem's colour count, which is the value that global holds
  when the script runs.
- The commented-out strategies at color_graph.py:268 and 271-272 are
  expressible as `VertexPolicy.AnyUnassigned` and
  `ColorPolicy.AllColors` / `ColorPolicy.RemainingColorsOnly`. The entry point
  uses the configuration the program runs with: `MinimumRemainingThenDegree`
  and `LeastConstraining`.
- `vertexes(assignment)` is Dafny's `a.Keys`, and `vertexes()` is
  `Graphs.Vertexes`.
- The program's `assert` statements become `requires` clauses: the assigned
  vertices are graph vertices (`Within`), and a queried vertex is an
  unassigned graph vertex (`IsUnassigned`).

The search is sound but not complete. It tries only the colours of least
impact (color_graph.py:273), not all remaining colours. A trial that fails
the consistency check is not undone (color_graph.py:280-286): its entry stays
until the next colour overwrites it, or stays for good after the last one.
Under `AllColors` such a clash can happen on any graph with an edge. Under
the least-constraining or remaining-colour policy, from a consistent start,
only one-way edges (`Scenarios.OneWayEdgeTrialClashes`) or self-loops cause
it. So the exact-undo guarantee is stated for those two policies on
symmetric, loop-free graphs only. The search is not exhaustive, and a
failed trial is not always undone.

## Model

| member | source | states |
|---|---|---|
| Graphs.Vertexes | color_graph.py:65-68 | the problem's vertex set is exactly the key set of the adjacency map |
| Graphs.Colors | color_graph.py:84-90 | the colour universe holds exactly the integers `0 <= c < num_colors`, and has `num_colors` members (none when the count is not positive) |
| Graphs.UnassignedVertexes | color_graph.py:77-82 | the unassigned vertices and the assigned ones partition the graph's vertex set |
| Graphs.AssignmentIsComplete | color_graph.py:70-75 | an assignment is complete exactly when no graph vertex is left unassigned |
| Constraints.AssignmentIsConsistent | color_graph.py:92-104 | the nested scan answers false exactly when some assigned vertex has an assigned vertex of the same colour in its own adjacency list |
| Constraints.EmptyIsConsistent | color_graph.py:92-104 | the empty assignment is consistent |
| Constraints.RemainingColors | color_graph.py:114-126 | a colour remains for `v` exactly when it is in `0 .. num_colors-1` and no assigned member of `v`'s adjacency list has it; the result is a subset of the colour universe |
| Constraints.NumRemainingColors | color_graph.py:128-134 | the count of remaining colours never exceeds the size of the colour universe, and is zero exactly when no colour remains |
| Constraints.NumVertexConstraints | color_graph.py:136-147 | the dynamic degree never exceeds the size of the adjacency list |
| Constraints.RemainingColorsShrink | color_graph.py:114-134 | extending the assignment never adds a remaining colour to a still-unassigned vertex, so its count never grows |
| Constraints.VertexConstraintsShrink | color_graph.py:136-147 | assigning more vertices never raises a vertex's dynamic degree |
| Constraints.RemainingAfterAssign | color_graph.py:114-126 | colouring `v` with `c` removes `c` from an unassigned `u`'s remaining colours if `u` lists `v`, and changes nothing otherwise |
| Constraints.VertexConstraintsAfterAssign | color_graph.py:136-147 | colouring `w` lowers `v`'s dynamic degree by one if `v` lists `w`, and leaves it unchanged otherwise |
| Constraints.AssignKeepsConsistency | color_graph.py:92-126 | for symmetric, loop-free adjacency and a consistent assignment, colouring an unassigned vertex with an in-range colour stays consistent exactly when the colour is one of its remaining colours |
| Constraints.ClosedLooplessScorable | color_graph.py:227-229 | on closed, loop-free adjacency, every neighbour scored for a vertex is an unassigned graph vertex other than it, as the remaining-colour queries assert |
| Constraints.DropIsLoss | color_graph.py:227-230 | each unassigned neighbour's remaining count drops by one when it would lose the colour and by zero otherwise |
| Constraints.NumColorConstraints | color_graph.py:209-232 | the summed drop equals the number of unassigned neighbours that list the vertex and still have the colour, and lies between 0 and the vertex's dynamic degree |
| Heuristics.VertexesWithMinimumRemainingColors | color_graph.py:149-170 | the result is a non-empty subset of the non-empty input; its members have the least remaining count in the input; no member with that count is dropped |
| Heuristics.VertexesWithMaximumVertexConstraints | color_graph.py:172-193 | the result is a non-empty subset of the non-empty input; its members have the greatest dynamic degree in the input; no member with that degree is dropped |
| Heuristics.ChooseUnassignedVertexWithoutHeuristic | color_graph.py:106-112 | on an incomplete assignment, the choice is an unassigned graph vertex |
| Heuristics.ChooseUnassignedVertexWithHeuristic | color_graph.py:195-207 | on an incomplete assignment, the choice is an unassigned graph vertex with the fewest remaining colours, and no other unassigned vertex with that count has a greater dynamic degree |
| Heuristics.ColorsWithMinimumColorConstraints | color_graph.py:234-260 | the result is empty exactly when no colour remains; otherwise it is a subset of the remaining colours holding every colour of least impact and only those |
| Search.ChooseVertex | color_graph.py:268-269 | either vertex policy yields an unassigned graph vertex |
| Search.CandidateColors | color_graph.py:271-273 | every policy yields colours in range; the two remaining-colour policies stay within the vertex's remaining colours; least-constraining yields nothing exactly when nothing remains |
| Search.TrialKeepsInvariants | color_graph.py:278-280 | recording a trial colour keeps the assignment within the graph, keeps every entry of the call's start assignment, and keeps new colours in range |
| Search.UndoKeepsInvariants | color_graph.py:282-284 | deleting the trial vertex after a failed call keeps the same three invariants, whatever entries the failed call left behind |
| Search.SuccessKeepsInvariants | color_graph.py:282-286 | the invariants carry across a successful recursive call |
| Search.UndoRestores | color_graph.py:280-284 | deleting the trial vertex after a trial that changed nothing else gives back the assignment from before the trial |
| Search.RecursiveBacktrackingSearch | color_graph.py:262-288 | a complete start is returned unchanged; a non-`None` result is the final assignment, is complete, and is either the start or consistent; every colour the search adds is in range and no entry of the start changes; for symmetric, loop-free adjacency, a consistent start and a remaining-colour policy, a failed call leaves the assignment exactly as it found it |
| Search.BacktrackingSearch | color_graph.py:290-293 | a non-`None` result colours every graph vertex, is consistent, and uses only colours in `0 .. num_colors-1`; an empty graph yields the empty map, not `None` |
| Scenarios.TriangleHasNoTwoColoring | color_graph.py:92-104 | no assignment colours the 3-cycle consistently with two colours |
| Scenarios.TriangleWithTwoColors | color_graph.py:290-293 | the search on the 3-cycle with two colours returns `None` |
| Scenarios.EmptyGraph | color_graph.py:265-266 | the search on an empty graph returns the empty colouring |
| Scenarios.OneWayEdgeTrialClashes | color_graph.py:97-124 | with one-way adjacency a consistent assignment plus a remaining colour can be inconsistent, so a trial can fail the check and stay recorded |

## Left out

- `parse_text` and `string_array_to_int_array` (color_graph.py:5-44): input plumbing whose behaviour rests on Python's `str.strip`, `split` and `int`.
- The script at color_graph.py:295-319: it reads standard input and prints the problem and the result.
- `num_vertexes` is carried in `Problem` but, as in the program, never read.
- The order of set iteration is not modelled. Every choice is a free `:|` pick, so no contract depends on it, and no two runs are claimed to return the same colouring.
- Completeness is not claimed: the search skips every colour whose score is above the least, so it can report "no solution" for a colourable graph.
- The 3-cycle with three colours, the star with two colours and two isolated vertices with one colour are not proved to succeed. The contract of `Search.RecursiveBacktrackingSearch` says what any result must satisfy but does not fix the outcome on a particular input, so proving success there would need reasoning about the concrete runs of the search.
- Search.BacktrackingSearch: requires closed, loop-free adjacency on every input. The program itself fails only when a vertex it scores has a self-loop or an unknown neighbour. In that case `num_remaining_colors` raises an `AssertionError`, or the graph lookup raises a `KeyError`. This crash is not modelled as an outcome. `Search.RecursiveBacktrackingSearch` asks the same of the least-constraining policy only (`PolicyDefined`). `Heuristics.ColorsWithMinimumColorConstraints` asks for it only when some colour remains.
- Heuristics.VertexesWithMinimumRemainingColors: requires a non-empty input. On an empty set the program's `next(iter(...))` raises `StopIteration`, which is not modelled. The same holds for `Heuristics.VertexesWithMaximumVertexConstraints`. The search never calls either filter with an empty set.
- Heuristics.ChooseUnassignedVertexWithoutHeuristic and Heuristics.ChooseUnassignedVertexWithHeuristic: require an incomplete assignment. On a complete one the program raises `StopIteration` at color_graph.py:112, or through the filter's `next(iter(...))` at color_graph.py:157. That exception is not modelled because the only caller checks completeness first (color_graph.py:265).
- Search.RecursiveBacktrackingSearch: states exact undo after failure only for symmetric, loop-free graphs with a consistent start under the least-constraining or remaining-colour policy. Otherwise it states only that the start's entries are kept and that added colours are in range. The leftover entries are real behaviour of the program, not a gap in the proof.
- Python's identity of the returned dictionary (the result is the very object passed in) is modelled as the result being equal to the final state.
