/** A colouring problem: a graph given as an adjacency map from vertex to
    neighbour set, a colour count, and the partial assignments built on it. */
module Graphs {

  type Vertex = int
  type Color = int

  /** Adjacency lists; the vertex set is the key set.  Adjacency need not be
      symmetric, and a neighbour need not be a key. */
  type Graph = map<Vertex, set<Vertex>>

  /** A partial colouring. */
  type Assignment = map<Vertex, Color>

  /** `numVertexes` is stored but never read by the search. */
  datatype Problem = Problem(numVertexes: int, numColors: int, graph: Graph)

  function Vertexes(p: Problem): (r: set<Vertex>)
    ensures forall v :: v in r <==> v in p.graph
  {
    p.graph.Keys
  }

  /** The invariant every query asserts: only graph vertices are assigned. */
  predicate Within(p: Problem, a: Assignment)
  {
    a.Keys <= Vertexes(p)
  }

  /** The integers 0 .. n-1; empty when n <= 0, as Python's `range(n)`. */
  function ColorRange(n: int): (r: set<Color>)
    ensures forall c :: c in r <==> 0 <= c < n
    ensures |r| == if n <= 0 then 0 else n
  {
    if n <= 0 then {} else ColorRange(n - 1) + {n - 1}
  }

  /** The colour universe of a problem. */
  function Colors(p: Problem): (r: set<Color>)
    ensures forall c :: c in r <==> 0 <= c < p.numColors
    ensures |r| == if p.numColors <= 0 then 0 else p.numColors
  {
    ColorRange(p.numColors)
  }

  /** The graph vertices that have no colour yet. */
  function UnassignedVertexes(p: Problem, a: Assignment): (r: set<Vertex>)
    requires Within(p, a)
    ensures r <= Vertexes(p)
    ensures r !! a.Keys
    ensures r + a.Keys == Vertexes(p)
  {
    Vertexes(p) - a.Keys
  }

  /** `v` is a graph vertex with no colour yet: membership in
      `UnassignedVertexes`, stated without building the set. */
  predicate IsUnassigned(p: Problem, a: Assignment, v: Vertex)
  {
    v in p.graph && v !in a
  }

  /** Complete: every graph vertex is assigned. */
  function AssignmentIsComplete(p: Problem, a: Assignment): (b: bool)
    requires Within(p, a)
    ensures b <==> UnassignedVertexes(p, a) == {}
  {
    Vertexes(p) == a.Keys
  }

  /** `b` keeps every entry of `a` and may add more. */
  ghost predicate Extends(a: Assignment, b: Assignment)
  {
    a.Keys <= b.Keys && forall v :: v in a ==> b[v] == a[v]
  }

  /** Every adjacency entry is matched by the reverse entry. */
  ghost predicate Symmetric(g: Graph)
  {
    forall u, w :: u in g && w in g[u] ==> w in g && u in g[w]
  }

  /** No vertex lists itself as a neighbour. */
  ghost predicate Loopless(g: Graph)
  {
    forall v :: v in g ==> v !in g[v]
  }

  /** Every neighbour is itself a vertex of the graph. */
  ghost predicate Closed(g: Graph)
  {
    forall u, w :: u in g && w in g[u] ==> w in g
  }

  /** A non-empty set has a member to pick. */
  lemma HasMember(s: set<int>)
    requires s != {}
    ensures exists x :: x in s
  {
    assert (forall x :: x !in s) ==> s == {};
  }

  lemma {:induction false} FewerUnassigned(all: set<Vertex>, a: set<Vertex>, b: set<Vertex>, v: Vertex)
    requires a <= b <= all
    requires v in b && v !in a
    ensures |all - b| < |all - a|
  {
    assert all - b <= all - a;
    assert v in (all - a) - (all - b);
    assert (all - a) == (all - b) + ((all - a) - (all - b));
  }
}
