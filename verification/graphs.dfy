/** Directed multigraphs in the shape the igraph library hands them to the
    automata code: vertex `i` is `vs[i]` (its attribute record) and edge `j` is
    `es[j]`.  The igraph primitives the source calls are given here by their
    meaning: reachability (`adhesion(s, t) == 0` iff no path), out-edge lists
    (`incident`), out-degree and vertex deletion with renumbering. */
module Graphs {

  datatype Edge<A> = Edge(src: nat, dst: nat, attr: A)

  datatype Graph<V, A> = Graph(vs: seq<V>, es: seq<Edge<A>>)

  /** Every edge joins two existing vertices; igraph refuses any other edge. */
  predicate WellFormed<V, A(==)>(g: Graph<V, A>)
  {
    forall e :: e in g.es ==> e.src < |g.vs| && e.dst < |g.vs|
  }

  /** The vertex ids below `n`. */
  function Below(n: nat): (r: set<nat>)
    ensures forall v: nat :: v in r <==> v < n
  {
    if n == 0 then {} else Below(n - 1) + {n - 1}
  }

  // ---------------------------------------------------------------------------
  // Reachability

  ghost predicate Arc<A>(es: seq<Edge<A>>, u: nat, v: nat)
  {
    exists e :: e in es && e.src == u && e.dst == v
  }

  /** A non-empty vertex sequence whose consecutive vertices are joined by edges. */
  ghost predicate IsPath<A>(es: seq<Edge<A>>, p: seq<nat>)
  {
    |p| > 0 && forall i :: 0 <= i < |p| - 1 ==> Arc(es, p[i], p[i + 1])
  }

  /** There is a directed path from `s` to `t` (every vertex reaches itself). */
  ghost predicate Reachable<A>(es: seq<Edge<A>>, s: nat, t: nat)
  {
    exists p :: IsPath(es, p) && p[0] == s && p[|p| - 1] == t
  }

  /** A vertex set that no edge leaves. */
  ghost predicate Closed<A>(es: seq<Edge<A>>, S: set<nat>)
  {
    forall e :: e in es && e.src in S ==> e.dst in S
  }

  lemma ReachableRefl<A>(es: seq<Edge<A>>, s: nat)
    ensures Reachable(es, s, s)
  {
    assert IsPath(es, [s]);
  }

  /** A path can be extended by one more edge. */
  lemma ReachableStep<A>(es: seq<Edge<A>>, s: nat, e: Edge<A>)
    requires e in es && Reachable(es, s, e.src)
    ensures Reachable(es, s, e.dst)
  {
    var p :| IsPath(es, p) && p[0] == s && p[|p| - 1] == e.src;
    var q := p + [e.dst];
    forall i | 0 <= i < |q| - 1
      ensures Arc(es, q[i], q[i + 1])
    {
      if i < |p| - 1 {
        assert q[i] == p[i] && q[i + 1] == p[i + 1];
      } else {
        assert q[i] == e.src && q[i + 1] == e.dst;
      }
    }
    assert IsPath(es, q);
  }

  /** A path can be prefixed by one more edge. */
  lemma ReachablePrepend<A>(es: seq<Edge<A>>, e: Edge<A>, t: nat)
    requires e in es && Reachable(es, e.dst, t)
    ensures Reachable(es, e.src, t)
  {
    var p :| IsPath(es, p) && p[0] == e.dst && p[|p| - 1] == t;
    var q := [e.src] + p;
    forall i | 0 <= i < |q| - 1
      ensures Arc(es, q[i], q[i + 1])
    {
      if i == 0 {
        assert q[0] == e.src && q[1] == e.dst;
      } else {
        assert q[i] == p[i - 1] && q[i + 1] == p[i];
      }
    }
    assert IsPath(es, q);
  }

  /** A path over a subset of the edges is a path over all of them. */
  lemma ReachableSubset<A>(es1: seq<Edge<A>>, es2: seq<Edge<A>>, s: nat, t: nat)
    requires forall e :: e in es1 ==> e in es2
    requires Reachable(es1, s, t)
    ensures Reachable(es2, s, t)
  {
    var p :| IsPath(es1, p) && p[0] == s && p[|p| - 1] == t;
    forall i | 0 <= i < |p| - 1
      ensures Arc(es2, p[i], p[i + 1])
    {
      assert Arc(es1, p[i], p[i + 1]);
    }
    assert IsPath(es2, p);
  }

  /** A closed set holding `s` holds everything `s` reaches. */
  lemma {:induction false} ClosedHoldsReachable<A>(es: seq<Edge<A>>, S: set<nat>, s: nat, t: nat)
    requires s in S && Closed(es, S)
    requires Reachable(es, s, t)
    ensures t in S
  {
    var p :| IsPath(es, p) && p[0] == s && p[|p| - 1] == t;
    var i := 0;
    while i < |p| - 1
      invariant 0 <= i < |p|
      invariant p[i] in S
    {
      assert Arc(es, p[i], p[i + 1]);
      var e :| e in es && e.src == p[i] && e.dst == p[i + 1];
      i := i + 1;
    }
  }

  function Targets<A(==)>(es: seq<Edge<A>>): set<nat>
  {
    set e | e in es :: e.dst
  }

  /** One breadth step: the targets of the edges leaving `R`. */
  function Successors<A(==)>(es: seq<Edge<A>>, R: set<nat>): (r: set<nat>)
    ensures r <= Targets(es)
    ensures forall e :: e in es && e.src in R ==> e.dst in r
  {
    set e | e in es && e.src in R :: e.dst
  }

  lemma SuccessorsReachable<A>(es: seq<Edge<A>>, s: nat, R: set<nat>)
    requires forall t :: t in R ==> Reachable(es, s, t)
    ensures forall t :: t in Successors(es, R) ==> Reachable(es, s, t)
  {
    forall t | t in Successors(es, R)
      ensures Reachable(es, s, t)
    {
      var e :| e in es && e.src in R && e.dst == t;
      ReachableStep(es, s, e);
    }
  }

  /** Adds successors to `R` until no edge leaves it. */
  function Saturate<A(==)>(es: seq<Edge<A>>, s: nat, R: set<nat>): (r: set<nat>)
    requires s in R && R <= Targets(es) + {s}
    requires forall t :: t in R ==> Reachable(es, s, t)
    ensures R <= r <= Targets(es) + {s}
    ensures Closed(es, r)
    ensures forall t :: t in r ==> Reachable(es, s, t)
    decreases Targets(es) + {s} - R
  {
    var next := R + Successors(es, R);
    if next == R then
      R
    else
      SuccessorsReachable(es, s, R);
      assert exists x :: x in next && x !in R;
      Saturate(es, s, next)
  }

  /** The set of vertices reachable from `s`: the meaning of
      `adhesion(s, v) != 0` for `v != s`. */
  function ReachFrom<A(==)>(es: seq<Edge<A>>, s: nat): (r: set<nat>)
    ensures s in r && Closed(es, r)
    ensures forall t :: t in r ==> Reachable(es, s, t)
  {
    ReachableRefl(es, s);
    Saturate(es, s, {s})
  }

  /** `ReachFrom` computes exactly reachability. */
  lemma ReachFromExact<A>(es: seq<Edge<A>>, s: nat, t: nat)
    ensures t in ReachFrom(es, s) <==> Reachable(es, s, t)
  {
    if Reachable(es, s, t) {
      ClosedHoldsReachable(es, ReachFrom(es, s), s, t);
    }
  }

  // ---------------------------------------------------------------------------
  // Out-edges

  /** Ids of the edges among the first `k` from `v` to `t`, in id order. */
  function EdgesBetween<A(==)>(es: seq<Edge<A>>, v: nat, t: nat, k: nat): (r: seq<nat>)
    requires k <= |es|
    ensures forall j: nat :: j in r <==> j < k && es[j].src == v && es[j].dst == t
    ensures forall a, b :: 0 <= a < b < |r| ==> r[a] < r[b]
  {
    if k == 0 then []
    else
      var prev := EdgesBetween(es, v, t, k - 1);
      assert forall a :: 0 <= a < |prev| ==> prev[a] < k - 1 by {
        forall a | 0 <= a < |prev|
          ensures prev[a] < k - 1
        {
          assert prev[a] in prev;
        }
      }
      prev + (if es[k - 1].src == v && es[k - 1].dst == t then [k - 1] else [])
  }

  /** Ids of the edges from `v` whose target is in [t, n), by target then id. */
  function IncidentFrom<A(==)>(es: seq<Edge<A>>, v: nat, t: nat, n: nat): (r: seq<nat>)
    ensures forall j: nat :: j in r <==> j < |es| && es[j].src == v && t <= es[j].dst < n
    ensures forall a, b :: 0 <= a < b < |r| ==> r[a] != r[b]
    decreases n - t
  {
    if t >= n then []
    else
      var here := EdgesBetween(es, v, t, |es|);
      var rest := IncidentFrom(es, v, t + 1, n);
      assert forall a, b :: 0 <= a < |here| && 0 <= b < |rest| ==> here[a] != rest[b] by {
        forall a, b | 0 <= a < |here| && 0 <= b < |rest|
          ensures here[a] != rest[b]
        {
          assert here[a] in here && rest[b] in rest;
        }
      }
      here + rest
  }

  /** igraph's `incident(v)` (mode OUT): the out-edges of `v`, each once,
      ordered by target vertex and then by edge id. */
  function IncidentOut<V, A(==)>(g: Graph<V, A>, v: nat): (r: seq<nat>)
    requires WellFormed(g)
    ensures forall j: nat :: j in r <==> j < |g.es| && g.es[j].src == v
    ensures forall a, b :: 0 <= a < b < |r| ==> r[a] != r[b]
  {
    forall j: nat | j < |g.es| && g.es[j].src == v
      ensures g.es[j].dst < |g.vs|
    {
      assert g.es[j] in g.es;
    }
    IncidentFrom(g.es, v, 0, |g.vs|)
  }

  /** The ids of the edges leaving `v`. */
  function OutIds<A>(es: seq<Edge<A>>, v: nat): set<nat>
  {
    set j: nat | j < |es| && es[j].src == v
  }

  /** The ids leaving `v` among `es` and one edge more. */
  lemma OutIdsSnoc<A>(es: seq<Edge<A>>, v: nat)
    requires |es| > 0
    ensures var n := |es| - 1;
      OutIds(es, v) == OutIds(es[..n], v) + (if es[n].src == v then {n} else {})
    ensures |es| - 1 !in OutIds(es[..|es| - 1], v)
  {
  }

  /** Number of edges leaving `v`. */
  function OutDegree<A(==)>(es: seq<Edge<A>>, v: nat): (r: nat)
    ensures r == |OutIds(es, v)|
    ensures r == 0 <==> forall e :: e in es ==> e.src != v
    ensures r <= |es|
  {
    if |es| == 0 then
      assert OutIds(es, v) == {};
      0
    else
      assert forall e :: e in es ==> e in es[..|es| - 1] || e == es[|es| - 1];
      OutIdsSnoc(es, v);
      OutDegree(es[..|es| - 1], v) + (if es[|es| - 1].src == v then 1 else 0)
  }

  // ---------------------------------------------------------------------------
  // Vertex deletion (igraph `delete_vertices`)

  /** The index vertex `v` gets once the vertices in `del` are removed: the
      number of surviving vertices below it. */
  function Rank(del: set<nat>, v: nat): (r: nat)
    ensures r <= v
  {
    if v == 0 then 0 else Rank(del, v - 1) + (if v - 1 in del then 0 else 1)
  }

  /** Rank is strictly increasing on surviving vertices. */
  lemma {:induction false} RankMonotone(del: set<nat>, u: nat, v: nat)
    requires u < v && u !in del
    ensures Rank(del, u) < Rank(del, v)
    decreases v
  {
    if u < v - 1 {
      RankMonotone(del, u, v - 1);
    }
  }

  /** Every rank below `Rank(del, n)` is the rank of a surviving vertex below `n`. */
  lemma {:induction false} RankOnto(del: set<nat>, n: nat, k: nat)
    requires k < Rank(del, n)
    ensures exists v: nat :: v < n && v !in del && Rank(del, v) == k
    decreases n
  {
    if k < Rank(del, n - 1) {
      RankOnto(del, n - 1, k);
    } else {
      assert n - 1 !in del && Rank(del, n - 1) == k;
    }
  }

  /** The surviving vertices among the first `n`, in their original order. */
  function KeepVertices<V>(vs: seq<V>, del: set<nat>, n: nat): (r: seq<V>)
    requires n <= |vs|
    ensures |r| == Rank(del, n)
  {
    if n == 0 then []
    else KeepVertices(vs, del, n - 1) + (if n - 1 in del then [] else [vs[n - 1]])
  }

  /** A surviving vertex `v` is found at position `Rank(del, v)`. */
  lemma {:induction false} KeepVerticesAt<V>(vs: seq<V>, del: set<nat>, n: nat, v: nat)
    requires v < n <= |vs| && v !in del
    ensures Rank(del, v) < |KeepVertices(vs, del, n)|
    ensures KeepVertices(vs, del, n)[Rank(del, v)] == vs[v]
    decreases n
  {
    var prev := KeepVertices(vs, del, n - 1);
    if v < n - 1 {
      KeepVerticesAt(vs, del, n - 1, v);
      RankMonotone(del, v, n - 1);
    } else {
      assert Rank(del, v) == |prev|;
    }
  }

  /** The edges whose two ends survive, renumbered, in their original order. */
  function KeepEdges<A(==)>(es: seq<Edge<A>>, del: set<nat>): (r: seq<Edge<A>>)
    ensures forall e0 :: e0 in es && e0.src !in del && e0.dst !in del ==>
      Edge(Rank(del, e0.src), Rank(del, e0.dst), e0.attr) in r
    ensures forall e :: e in r ==>
      exists e0 :: e0 in es && e0.src !in del && e0.dst !in del
        && e == Edge(Rank(del, e0.src), Rank(del, e0.dst), e0.attr)
  {
    if |es| == 0 then []
    else
      var e0 := es[0];
      assert es == [e0] + es[1..];
      (if e0.src !in del && e0.dst !in del
       then [Edge(Rank(del, e0.src), Rank(del, e0.dst), e0.attr)]
       else [])
      + KeepEdges(es[1..], del)
  }

  /** igraph's `delete_vertices(del)`: the vertices in `del` and every edge
      touching one of them disappear, the rest are renumbered by `Rank`. */
  function DeleteVertices<V, A(==)>(g: Graph<V, A>, del: set<nat>): (r: Graph<V, A>)
    ensures |r.vs| == Rank(del, |g.vs|)
    ensures forall v: nat :: v < |g.vs| && v !in del ==> Rank(del, v) < |r.vs| && r.vs[Rank(del, v)] == g.vs[v]
    ensures forall e0 :: e0 in g.es && e0.src !in del && e0.dst !in del ==>
      Edge(Rank(del, e0.src), Rank(del, e0.dst), e0.attr) in r.es
    ensures forall e :: e in r.es ==>
      exists e0 :: e0 in g.es && e0.src !in del && e0.dst !in del
        && e == Edge(Rank(del, e0.src), Rank(del, e0.dst), e0.attr)
  {
    var r := Graph(KeepVertices(g.vs, del, |g.vs|), KeepEdges(g.es, del));
    assert forall v: nat :: v < |g.vs| && v !in del ==> Rank(del, v) < |r.vs| && r.vs[Rank(del, v)] == g.vs[v] by {
      forall v: nat | v < |g.vs| && v !in del
        ensures Rank(del, v) < |r.vs| && r.vs[Rank(del, v)] == g.vs[v]
      {
        KeepVerticesAt(g.vs, del, |g.vs|, v);
      }
    }
    r
  }

  /** Deletion keeps a graph well formed and gives distinct survivors distinct
      numbers (`RankOnto`: and leaves no gaps). */
  lemma DeleteVerticesRenumbers<V, A>(g: Graph<V, A>, del: set<nat>)
    ensures WellFormed(g) ==> WellFormed(DeleteVertices(g, del))
    ensures forall u: nat, v: nat :: u < v < |g.vs| && u !in del && v !in del ==> Rank(del, u) < Rank(del, v)
  {
    var r := DeleteVertices(g, del);
    if WellFormed(g) {
      forall e | e in r.es
        ensures e.src < |r.vs| && e.dst < |r.vs|
      {
        var e0 :| e0 in g.es && e0.src !in del && e0.dst !in del
          && e == Edge(Rank(del, e0.src), Rank(del, e0.dst), e0.attr);
      }
    }
    forall u: nat, v: nat | u < v < |g.vs| && u !in del && v !in del
      ensures Rank(del, u) < Rank(del, v)
    {
      RankMonotone(del, u, v);
    }
  }

  /** Every vertex of a path from `s` is reachable from `s`. */
  lemma PathPrefixReachable<A>(es: seq<Edge<A>>, p: seq<nat>, i: nat)
    requires IsPath(es, p) && i < |p|
    ensures Reachable(es, p[0], p[i])
  {
    var q := p[..i + 1];
    forall k | 0 <= k < |q| - 1
      ensures Arc(es, q[k], q[k + 1])
    {
      assert q[k] == p[k] && q[k + 1] == p[k + 1];
    }
    assert IsPath(es, q);
  }

  /** A path from `s` survives deletion, renumbered, when nothing `s` reaches
      is deleted. */
  lemma DeleteVerticesKeepsPaths<V, A>(g: Graph<V, A>, del: set<nat>, s: nat, t: nat)
    requires Reachable(g.es, s, t)
    requires forall u :: Reachable(g.es, s, u) ==> u !in del
    ensures Reachable(DeleteVertices(g, del).es, Rank(del, s), Rank(del, t))
  {
    var r := DeleteVertices(g, del);
    var p :| IsPath(g.es, p) && p[0] == s && p[|p| - 1] == t;
    var q := seq(|p|, i requires 0 <= i < |p| => Rank(del, p[i]));
    forall i | 0 <= i < |q| - 1
      ensures Arc(r.es, q[i], q[i + 1])
    {
      assert Arc(g.es, p[i], p[i + 1]);
      var e0 :| e0 in g.es && e0.src == p[i] && e0.dst == p[i + 1];
      PathPrefixReachable(g.es, p, i);
      PathPrefixReachable(g.es, p, i + 1);
      assert Edge(Rank(del, e0.src), Rank(del, e0.dst), e0.attr) in r.es;
    }
    assert IsPath(r.es, q);
  }

  /** Deleting exactly what `s` does not reach leaves a graph in which the
      renumbered `s` reaches every vertex. */
  lemma DeleteUnreachedConnects<V, A>(g: Graph<V, A>, del: set<nat>, s: nat)
    requires s < |g.vs|
    requires forall v: nat :: v in del <==> v < |g.vs| && !Reachable(g.es, s, v)
    ensures Rank(del, s) < |DeleteVertices(g, del).vs|
    ensures forall w :: 0 <= w < |DeleteVertices(g, del).vs| ==> Reachable(DeleteVertices(g, del).es, Rank(del, s), w)
  {
    ReachableRefl(g.es, s);
    forall w | 0 <= w < |DeleteVertices(g, del).vs|
      ensures Reachable(DeleteVertices(g, del).es, Rank(del, s), w)
    {
      RankOnto(del, |g.vs|, w);
      var v: nat :| v < |g.vs| && v !in del && Rank(del, v) == w;
      DeleteVerticesKeepsPaths(g, del, s, v);
    }
  }
}
