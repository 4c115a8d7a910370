/** The constraint evaluator: consistency of an assignment, the colours
    still legal for a vertex, its dynamic degree, and the least-constraining
    score of a candidate colour. */
module Constraints {

  import opened Graphs

  /** No assigned vertex shares its colour with an assigned vertex in its own
      adjacency list.  Only the listed direction of each entry is checked. */
  ghost predicate Consistent(p: Problem, a: Assignment)
  {
    forall w, u :: w in a && w in p.graph && u in p.graph[w] && u in a ==> a[w] != a[u]
  }

  /** No clash starts at a vertex of `ws` (a vertex of `ws`, its listed
      neighbour `u` among `us`, both assigned, same colour). */
  ghost predicate NoClashFrom(p: Problem, a: Assignment, ws: set<Vertex>, us: set<Vertex>)
  {
    forall w, u :: w in ws && w in a && w in p.graph && u in p.graph[w] && u in us && u in a ==> a[w] != a[u]
  }

  /** Scans every assigned vertex and each of its assigned neighbours and
      reports a clash as soon as it meets one. */
  method AssignmentIsConsistent(p: Problem, a: Assignment) returns (ok: bool)
    requires Within(p, a)
    ensures ok <==> Consistent(p, a)
  {
    ghost var everything := set w, u | w in a && u in p.graph[w] :: u;
    var todo := a.Keys;
    while todo != {}
      invariant todo <= a.Keys
      invariant NoClashFrom(p, a, a.Keys - todo, everything)
      decreases todo
    {
      HasMember(todo);
      var vertex :| vertex in todo;
      var adjacent := p.graph[vertex];
      while adjacent != {}
        invariant adjacent <= p.graph[vertex]
        invariant NoClashFrom(p, a, {vertex}, p.graph[vertex] - adjacent)
        decreases adjacent
      {
        HasMember(adjacent);
        var u :| u in adjacent;
        if u in a && a[vertex] == a[u] {
          return false;
        }
        adjacent := adjacent - {u};
      }
      todo := todo - {vertex};
    }
    return true;
  }

  lemma EmptyIsConsistent(p: Problem)
    ensures Consistent(p, map[])
  {
  }

  /** The colours held by the assigned members of `v`'s adjacency list. */
  function UsedColors(p: Problem, a: Assignment, v: Vertex): set<Color>
    requires v in p.graph
  {
    set u | u in p.graph[v] && u in a :: a[u]
  }

  /** The colours `v` may still take: the colour universe minus the colours
      of its assigned neighbours. */
  function RemainingColors(p: Problem, a: Assignment, v: Vertex): (r: set<Color>)
    requires Within(p, a)
    requires IsUnassigned(p, a, v)
    ensures r <= Colors(p)
    ensures forall c :: c in r <==>
      0 <= c < p.numColors && forall u :: u in p.graph[v] && u in a ==> a[u] != c
  {
    set c | c in Colors(p) && c !in UsedColors(p, a, v)
  }

  function NumRemainingColors(p: Problem, a: Assignment, v: Vertex): (n: nat)
    requires Within(p, a)
    requires IsUnassigned(p, a, v)
    ensures n <= |Colors(p)|
    ensures n == 0 <==> RemainingColors(p, a, v) == {}
  {
    SubsetCardinality(RemainingColors(p, a, v), Colors(p));
    |RemainingColors(p, a, v)|
  }

  lemma {:induction false} SubsetCardinality<T>(s: set<T>, t: set<T>)
    requires s <= t
    ensures |s| <= |t|
  {
    assert t == s + (t - s);
  }

  /** The members of `v`'s adjacency list with no colour yet. */
  function UnassignedNeighbours(p: Problem, a: Assignment, v: Vertex): set<Vertex>
    requires v in p.graph
  {
    set u | u in p.graph[v] && u !in a
  }

  /** The dynamic degree of `v`: how many of its neighbours are unassigned. */
  function NumVertexConstraints(p: Problem, a: Assignment, v: Vertex): (n: nat)
    requires Within(p, a)
    requires IsUnassigned(p, a, v)
    ensures n <= |p.graph[v]|
  {
    SubsetCardinality(UnassignedNeighbours(p, a, v), p.graph[v]);
    |UnassignedNeighbours(p, a, v)|
  }

  /** Extending an assignment never enlarges a vertex's remaining colours. */
  lemma RemainingColorsShrink(p: Problem, a: Assignment, b: Assignment, v: Vertex)
    requires Within(p, b) && Extends(a, b)
    requires IsUnassigned(p, b, v)
    ensures Within(p, a) && IsUnassigned(p, a, v)
    ensures RemainingColors(p, b, v) <= RemainingColors(p, a, v)
    ensures NumRemainingColors(p, b, v) <= NumRemainingColors(p, a, v)
  {
    SubsetCardinality(RemainingColors(p, b, v), RemainingColors(p, a, v));
  }

  /** Extending an assignment never raises a vertex's dynamic degree. */
  lemma VertexConstraintsShrink(p: Problem, a: Assignment, b: Assignment, v: Vertex)
    requires Within(p, b) && a.Keys <= b.Keys
    requires IsUnassigned(p, b, v)
    ensures Within(p, a) && IsUnassigned(p, a, v)
    ensures NumVertexConstraints(p, b, v) <= NumVertexConstraints(p, a, v)
  {
    SubsetCardinality(UnassignedNeighbours(p, b, v), UnassignedNeighbours(p, a, v));
  }

  /** Colouring `v` with `c` removes `c` from the remaining colours of an
      unassigned `u` exactly when `v` is in `u`'s adjacency list, and changes
      nothing else. */
  lemma RemainingAfterAssign(p: Problem, a: Assignment, v: Vertex, c: Color, u: Vertex)
    requires Within(p, a)
    requires IsUnassigned(p, a, v) && IsUnassigned(p, a, u) && u != v
    ensures Within(p, a[v := c]) && IsUnassigned(p, a[v := c], u)
    ensures RemainingColors(p, a[v := c], u) ==
      if v in p.graph[u] then RemainingColors(p, a, u) - {c} else RemainingColors(p, a, u)
  {
  }

  /** Colouring `w` lowers the dynamic degree of `v` by one exactly when `w`
      is a neighbour of `v`. */
  lemma VertexConstraintsAfterAssign(p: Problem, a: Assignment, w: Vertex, c: Color, v: Vertex)
    requires Within(p, a)
    requires IsUnassigned(p, a, w) && IsUnassigned(p, a, v) && v != w
    ensures Within(p, a[w := c]) && IsUnassigned(p, a[w := c], v)
    ensures w in p.graph[v] ==> NumVertexConstraints(p, a[w := c], v) == NumVertexConstraints(p, a, v) - 1
    ensures w !in p.graph[v] ==> NumVertexConstraints(p, a[w := c], v) == NumVertexConstraints(p, a, v)
  {
    var b := a[w := c];
    var before := UnassignedNeighbours(p, a, v);
    var after := UnassignedNeighbours(p, b, v);
    if w in p.graph[v] {
      assert after == before - {w};
      assert w in before;
    } else {
      assert after == before;
    }
  }

  /** Under symmetric, loop-free adjacency, colouring an unassigned `v` of a
      consistent assignment with an in-range colour keeps it consistent exactly
      when that colour is one of `v`'s remaining colours. */
  lemma AssignKeepsConsistency(p: Problem, a: Assignment, v: Vertex, c: Color)
    requires Within(p, a) && Consistent(p, a)
    requires Symmetric(p.graph) && Loopless(p.graph)
    requires IsUnassigned(p, a, v)
    requires 0 <= c < p.numColors
    ensures Consistent(p, a[v := c]) <==> c in RemainingColors(p, a, v)
  {
    var b := a[v := c];
    if c in RemainingColors(p, a, v) {
      forall w, u | w in b && w in p.graph && u in p.graph[w] && u in b
        ensures b[w] != b[u]
      {
        if w == v {
          assert u != v;
        } else if u == v {
          assert w in p.graph[v];
        }
      }
    } else {
      var u :| u in p.graph[v] && u in a && a[u] == c;
      assert v in b && u in p.graph[v] && u in b && b[v] == b[u];
    }
  }

  /** Every vertex the score must look at is an unassigned graph vertex other
      than `v`: the precondition of the remaining-colour queries made while
      scoring a colour for `v`. */
  ghost predicate ScorableNeighbours(p: Problem, a: Assignment, v: Vertex)
    requires v in p.graph
  {
    forall u :: u in p.graph[v] && u !in a ==> u in p.graph && u != v
  }

  lemma ClosedLooplessScorable(p: Problem, a: Assignment, v: Vertex)
    requires Closed(p.graph) && Loopless(p.graph)
    requires v in p.graph
    ensures ScorableNeighbours(p, a, v)
  {
  }

  /** The unassigned neighbours of `v` that would lose colour `c` if `v` took
      it: those that list `v` as a neighbour and still have `c` available. */
  ghost function LosingNeighbours(p: Problem, a: Assignment, v: Vertex, c: Color): set<Vertex>
    requires Within(p, a)
    requires v in p.graph
  {
    set u | u in p.graph[v] && IsUnassigned(p, a, u) && v in p.graph[u]
                && c in RemainingColors(p, a, u)
  }

  /** The reference least-constraining score: how many neighbours lose `c`. */
  ghost function ColorImpact(p: Problem, a: Assignment, v: Vertex, c: Color): nat
    requires Within(p, a)
    requires v in p.graph
  {
    |LosingNeighbours(p, a, v, c)|
  }

  /** The drop in `u`'s remaining colour count caused by `v := c` is one when
      `u` is a losing neighbour and zero otherwise. */
  lemma DropIsLoss(p: Problem, a: Assignment, v: Vertex, c: Color, u: Vertex)
    requires Within(p, a)
    requires IsUnassigned(p, a, v) && IsUnassigned(p, a, u) && u != v
    requires u in p.graph[v]
    ensures Within(p, a[v := c]) && IsUnassigned(p, a[v := c], u)
    ensures NumRemainingColors(p, a, u) - NumRemainingColors(p, a[v := c], u) ==
      if u in LosingNeighbours(p, a, v, c) then 1 else 0
  {
    RemainingAfterAssign(p, a, v, c, u);
    var before := RemainingColors(p, a, u);
    var after := RemainingColors(p, a[v := c], u);
    var loses := v in p.graph[u] && c in before;
    assert u in LosingNeighbours(p, a, v, c) <==> loses;
    if loses {
      assert after == before - {c};
      assert |after| == |before| - 1;
    } else {
      assert after == before;
    }
  }

  /** Adding one element to the processed part of a set adds one to the count
      of processed members of `s` exactly when that element is in `s`. */
  lemma CountStep(s: set<Vertex>, todo: set<Vertex>, u: Vertex)
    requires u in todo
    ensures |s - (todo - {u})| == |s - todo| + (if u in s then 1 else 0)
  {
    if u in s {
      assert s - (todo - {u}) == (s - todo) + {u};
    } else {
      assert s - (todo - {u}) == s - todo;
    }
  }

  /** Sums, over the unassigned neighbours of `v`, the drop in their remaining
      colour count caused by a hypothetical `v := c`. */
  method NumColorConstraints(p: Problem, a: Assignment, v: Vertex, c: Color) returns (total: int)
    requires Within(p, a)
    requires IsUnassigned(p, a, v)
    requires c in RemainingColors(p, a, v)
    requires ScorableNeighbours(p, a, v)
    ensures total == ColorImpact(p, a, v, c)
    ensures 0 <= total <= NumVertexConstraints(p, a, v)
  {
    var unassignedAdjacent := UnassignedNeighbours(p, a, v);
    var next := a[v := c];
    ghost var losing := LosingNeighbours(p, a, v, c);
    total := 0;
    var todo := unassignedAdjacent;
    while todo != {}
      invariant todo <= unassignedAdjacent
      invariant total == |losing - todo|
      decreases todo
    {
      HasMember(todo);
      var u :| u in todo;
      DropIsLoss(p, a, v, c, u);
      CountStep(losing, todo, u);
      total := total + (NumRemainingColors(p, a, u) - NumRemainingColors(p, next, u));
      todo := todo - {u};
    }
    assert losing - todo == losing;
    SubsetCardinality(losing, unassignedAdjacent);
  }
}
