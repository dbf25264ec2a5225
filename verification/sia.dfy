/** The synchronous-interface-automata product of sia.py: `fold` builds the
    product of two automata over an explicit list of shared action names,
    `markBlocking` is the depth-first "has-action" pass that flags a
    subsystem as blocking, and `checkSys` runs the four passes and prunes the
    states not reachable from state 0. */
module Sia {
  import opened Results
  import opened Graphs
  import opened ProductIds

  /** Edge attributes: action name, mode (`?`, `!` or `;`), weight (1 = must,
      0 = may) and, on a product, the names of the automata that take the step. */
  datatype Act = Act(name: string, mode: string, weight: int, sys: seq<string>)

  /** An automaton: igraph's graph-level `name` attribute and the graph. */
  datatype Automaton<V> = Automaton(name: string, g: Graph<V, Act>)

  /** Vertex attributes of a factor after `preProgress`. */
  datatype Local = Local(end: bool, block: bool, strength: int)

  /** Vertex attributes of a product: `states` maps each factor name to the
      local state; igraph leaves it unset (None) on a vertex no edge touches. */
  datatype Composite = Composite(reach: bool, end: bool, states: Option<map<string, nat>>)

  /** A product edge together with the local-state pairs the source records for
      its two ends while adding it. */
  datatype Stamped = Stamped(edge: Edge<Act>, from: (nat, nat), to: (nat, nat))

  // ---------------------------------------------------------------------------
  // Edge selections

  /** `g.es(name=name)`: the edges carrying the action `name`, in id order. */
  function Named(es: seq<Edge<Act>>, name: string): (r: seq<Edge<Act>>)
    ensures forall e :: e in r <==> e in es && e.attr.name == name
  {
    if |es| == 0 then []
    else (if es[0].attr.name == name then [es[0]] else []) + Named(es[1..], name)
  }

  /** The edges whose name is not in `shared`, in id order. */
  function Unshared(es: seq<Edge<Act>>, shared: seq<string>): (r: seq<Edge<Act>>)
    ensures forall e :: e in r <==> e in es && e.attr.name !in shared
  {
    if |es| == 0 then []
    else (if es[0].attr.name !in shared then [es[0]] else []) + Unshared(es[1..], shared)
  }

  /** Sum of the weights of the edges leaving `v` (igraph `strength`, mode OUT). */
  function Strength(es: seq<Edge<Act>>, v: nat): int
  {
    if |es| == 0 then 0
    else Strength(es[..|es| - 1], v) + (if es[|es| - 1].src == v then es[|es| - 1].attr.weight else 0)
  }

  /** With non-negative weights a vertex has strength 0 exactly when every edge
      leaving it is a may (weight-0) edge. */
  lemma {:induction false} StrengthZeroIffOnlyMay(es: seq<Edge<Act>>, v: nat)
    requires forall e :: e in es ==> e.attr.weight >= 0
    ensures Strength(es, v) >= 0
    ensures Strength(es, v) == 0 <==> forall e :: e in es && e.src == v ==> e.attr.weight == 0
  {
    if |es| > 0 {
      var init := es[..|es| - 1];
      assert forall e :: e in init ==> e in es;
      StrengthZeroIffOnlyMay(init, v);
      assert forall e :: e in es ==> e in init || e == es[|es| - 1];
    }
  }

  // ---------------------------------------------------------------------------
  // fold

  /** Local pairs are recorded correctly: the edge's ends are the product ids of
      the recorded pairs, the right components lie below `n` and the left ones
      below `m`. */
  ghost predicate StampOk(m: nat, n: nat, s: Stamped)
  {
    && s.from.0 < m && s.from.1 < n && s.to.0 < m && s.to.1 < n
    && s.edge.src == VertexId(n, s.from.0, s.from.1)
    && s.edge.dst == VertexId(n, s.to.0, s.to.1)
  }

  /** The handshake step of the pair (e1, e2): sia.py:40-45. */
  function SharedStamp(n: nat, sys: seq<string>, name: string, e1: Edge<Act>, e2: Edge<Act>): Stamped
  {
    Stamped(Edge(VertexId(n, e1.src, e2.src), VertexId(n, e1.dst, e2.dst), Act(name, ";", 1, sys)),
            (e1.src, e2.src), (e1.dst, e2.dst))
  }

  /** One handshake of `e1` with each edge of `es2`, in order. */
  function PairRow(n: nat, sys: seq<string>, name: string, e1: Edge<Act>, es2: seq<Edge<Act>>): (r: seq<Stamped>)
    ensures |r| == |es2|
  {
    if |es2| == 0 then []
    else [SharedStamp(n, sys, name, e1, es2[0])] + PairRow(n, sys, name, e1, es2[1..])
  }

  lemma {:induction false} PairRowHas(n: nat, sys: seq<string>, name: string, e1: Edge<Act>, es2: seq<Edge<Act>>, s: Stamped)
    ensures s in PairRow(n, sys, name, e1, es2) <==> exists e2 :: e2 in es2 && s == SharedStamp(n, sys, name, e1, e2)
  {
    if |es2| > 0 {
      PairRowHas(n, sys, name, e1, es2[1..], s);
      assert forall e2 :: e2 in es2 <==> e2 == es2[0] || e2 in es2[1..];
    }
  }

  /** One handshake per pair of `es1 x es2`, row by row. */
  function PairSteps(n: nat, sys: seq<string>, name: string, es1: seq<Edge<Act>>, es2: seq<Edge<Act>>): seq<Stamped>
  {
    if |es1| == 0 then []
    else PairRow(n, sys, name, es1[0], es2) + PairSteps(n, sys, name, es1[1..], es2)
  }

  lemma {:induction false} PairStepsHas(n: nat, sys: seq<string>, name: string, es1: seq<Edge<Act>>, es2: seq<Edge<Act>>, s: Stamped)
    ensures s in PairSteps(n, sys, name, es1, es2) <==>
      exists e1, e2 :: e1 in es1 && e2 in es2 && s == SharedStamp(n, sys, name, e1, e2)
  {
    if |es1| > 0 {
      PairRowHas(n, sys, name, es1[0], es2, s);
      PairStepsHas(n, sys, name, es1[1..], es2, s);
      assert forall e1 :: e1 in es1 <==> e1 == es1[0] || e1 in es1[1..];
    }
  }

  lemma {:induction false} PairStepsCount(n: nat, sys: seq<string>, name: string, es1: seq<Edge<Act>>, es2: seq<Edge<Act>>)
    ensures |PairSteps(n, sys, name, es1, es2)| == |es1| * |es2|
  {
    if |es1| > 0 {
      PairStepsCount(n, sys, name, es1[1..], es2);
      assert |es1| * |es2| == |es2| + (|es1| - 1) * |es2|;
    }
  }

  /** `s` records the handshake of two same-named edges whose name is listed. */
  ghost predicate HandshakeStamp(es1: seq<Edge<Act>>, es2: seq<Edge<Act>>, n: nat, sys: seq<string>, shared: seq<string>, s: Stamped)
  {
    exists e1, e2 :: e1 in es1 && e2 in es2 && e1.attr.name == e2.attr.name && e1.attr.name in shared
      && s == SharedStamp(n, sys, e1.attr.name, e1, e2)
  }

  /** The handshakes of sia.py:37-45: for every name of `shared` in order, one
      step per pair of same-named edges. */
  function SharedSteps(n: nat, sys: seq<string>, shared: seq<string>, es1: seq<Edge<Act>>, es2: seq<Edge<Act>>): seq<Stamped>
  {
    if |shared| == 0 then []
    else
      PairSteps(n, sys, shared[0], Named(es1, shared[0]), Named(es2, shared[0]))
      + SharedSteps(n, sys, shared[1..], es1, es2)
  }

  lemma {:induction false} SharedStepsHas(n: nat, sys: seq<string>, shared: seq<string>, es1: seq<Edge<Act>>, es2: seq<Edge<Act>>, s: Stamped)
    ensures s in SharedSteps(n, sys, shared, es1, es2) <==> HandshakeStamp(es1, es2, n, sys, shared, s)
  {
    if |shared| > 0 {
      var name, rest := shared[0], shared[1..];
      var head := PairSteps(n, sys, name, Named(es1, name), Named(es2, name));
      PairStepsHas(n, sys, name, Named(es1, name), Named(es2, name), s);
      SharedStepsHas(n, sys, rest, es1, es2, s);
      assert forall x :: x in rest ==> x in shared;
      if s in head {
        var e1, e2 :| e1 in Named(es1, name) && e2 in Named(es2, name) && s == SharedStamp(n, sys, name, e1, e2);
        assert e1 in es1 && e2 in es2 && e1.attr.name == e2.attr.name && e1.attr.name in shared;
      }
      if HandshakeStamp(es1, es2, n, sys, shared, s) {
        var e1, e2 :| e1 in es1 && e2 in es2 && e1.attr.name == e2.attr.name && e1.attr.name in shared
          && s == SharedStamp(n, sys, e1.attr.name, e1, e2);
        if e1.attr.name == name {
          assert e1 in Named(es1, name) && e2 in Named(es2, name);
        } else {
          assert e1.attr.name in rest;
          assert HandshakeStamp(es1, es2, n, sys, rest, s);
        }
      }
    }
  }

  /** Number of handshakes `fold` adds: for each listed name, the product of
      the two factors' numbers of edges with that name. */
  function SharedCount(shared: seq<string>, es1: seq<Edge<Act>>, es2: seq<Edge<Act>>): nat
  {
    if |shared| == 0 then 0
    else |Named(es1, shared[0])| * |Named(es2, shared[0])| + SharedCount(shared[1..], es1, es2)
  }

  lemma {:induction false} SharedStepsCount(n: nat, sys: seq<string>, shared: seq<string>, es1: seq<Edge<Act>>, es2: seq<Edge<Act>>)
    ensures |SharedSteps(n, sys, shared, es1, es2)| == SharedCount(shared, es1, es2)
  {
    if |shared| > 0 {
      SharedStepsCount(n, sys, shared[1..], es1, es2);
      PairStepsCount(n, sys, shared[0], Named(es1, shared[0]), Named(es2, shared[0]));
    }
  }

  /** The copy of a left step with the right factor held in state `idx`. */
  function LeftStamp(n: nat, sys: seq<string>, act: Edge<Act>, idx: nat): Stamped
  {
    Stamped(Edge(VertexId(n, act.src, idx), VertexId(n, act.dst, idx),
                 Act(act.attr.name, act.attr.mode, act.attr.weight, sys)),
            (act.src, idx), (act.dst, idx))
  }

  /** The copy of a right step with the left factor held in state `idx`. */
  function RightStamp(n: nat, sys: seq<string>, act: Edge<Act>, idx: nat): Stamped
  {
    Stamped(Edge(VertexId(n, idx, act.src), VertexId(n, idx, act.dst),
                 Act(act.attr.name, act.attr.mode, act.attr.weight, sys)),
            (idx, act.src), (idx, act.dst))
  }

  /** The copy of `act` with the other factor held in state `idx`; `left`
      says which factor `act` belongs to. */
  function CopyStamp(n: nat, sys: seq<string>, act: Edge<Act>, idx: nat, left: bool): Stamped
  {
    if left then LeftStamp(n, sys, act, idx) else RightStamp(n, sys, act, idx)
  }

  /** `for idx in range(lo, hi)`: the copies of `act` for the other factor's states. */
  function Copies(n: nat, sys: seq<string>, act: Edge<Act>, left: bool, lo: nat, hi: nat): (r: seq<Stamped>)
    ensures |r| == if lo <= hi then hi - lo else 0
    decreases hi - lo
  {
    if lo >= hi then []
    else [CopyStamp(n, sys, act, lo, left)] + Copies(n, sys, act, left, lo + 1, hi)
  }

  lemma {:induction false} CopiesHas(n: nat, sys: seq<string>, act: Edge<Act>, left: bool, lo: nat, hi: nat, s: Stamped)
    ensures s in Copies(n, sys, act, left, lo, hi) <==> exists idx: nat :: lo <= idx < hi && s == CopyStamp(n, sys, act, idx, left)
    decreases hi - lo
  {
    if lo < hi {
      CopiesHas(n, sys, act, left, lo + 1, hi, s);
    }
  }

  /** `s` records a copy of an unlisted step of `es` with the other factor in
      a state below `count`. */
  ghost predicate IndependentStamp(es: seq<Edge<Act>>, n: nat, count: nat, sys: seq<string>, shared: seq<string>, left: bool, s: Stamped)
  {
    exists act, idx: nat :: act in es && act.attr.name !in shared && idx < count && s == CopyStamp(n, sys, act, idx, left)
  }

  /** sia.py:48-69: every edge not named in `shared`, once per state of the
      other factor (`count` of them); `left` says which factor `es` belongs to. */
  function IndependentSteps(n: nat, count: nat, sys: seq<string>, shared: seq<string>, es: seq<Edge<Act>>, left: bool): seq<Stamped>
  {
    if |es| == 0 then []
    else
      (if es[0].attr.name in shared then [] else Copies(n, sys, es[0], left, 0, count))
      + IndependentSteps(n, count, sys, shared, es[1..], left)
  }

  lemma {:induction false} IndependentStepsHas(n: nat, count: nat, sys: seq<string>, shared: seq<string>, es: seq<Edge<Act>>, left: bool, s: Stamped)
    ensures s in IndependentSteps(n, count, sys, shared, es, left) <==> IndependentStamp(es, n, count, sys, shared, left, s)
  {
    if |es| > 0 {
      var rest := es[1..];
      IndependentStepsHas(n, count, sys, shared, rest, left, s);
      CopiesHas(n, sys, es[0], left, 0, count, s);
      assert forall act :: act in es <==> act == es[0] || act in rest;
      if IndependentStamp(es, n, count, sys, shared, left, s) {
        var act, idx: nat :| act in es && act.attr.name !in shared && idx < count && s == CopyStamp(n, sys, act, idx, left);
        if act != es[0] {
          assert IndependentStamp(rest, n, count, sys, shared, left, s);
        }
      }
    }
  }

  lemma {:induction false} IndependentStepsCount(n: nat, count: nat, sys: seq<string>, shared: seq<string>, es: seq<Edge<Act>>, left: bool)
    ensures |IndependentSteps(n, count, sys, shared, es, left)| == |Unshared(es, shared)| * count
  {
    if |es| > 0 {
      var rest := es[1..];
      IndependentStepsCount(n, count, sys, shared, rest, left);
      var k := |Unshared(rest, shared)|;
      var tail := IndependentSteps(n, count, sys, shared, rest, left);
      assert |tail| == k * count;
      if es[0].attr.name !in shared {
        var head := Copies(n, sys, es[0], left, 0, count);
        assert IndependentSteps(n, count, sys, shared, es, left) == head + tail;
        assert Unshared(es, shared) == [es[0]] + Unshared(rest, shared);
        MulSucc(k, count);
      } else {
        assert IndependentSteps(n, count, sys, shared, es, left) == tail;
        assert Unshared(es, shared) == Unshared(rest, shared);
      }
    }
  }


  /** The local pair the source last recorded for vertex `v` (the later of the
      two assignments per edge is the target's). */
  function LastStamp(st: seq<Stamped>, v: nat): (r: Option<(nat, nat)>)
  {
    if |st| == 0 then None
    else
      var s := st[|st| - 1];
      if s.edge.dst == v then Some(s.to)
      else if s.edge.src == v then Some(s.from)
      else LastStamp(st[..|st| - 1], v)
  }

  /** When every record is correct, the last record of a vertex is its
      decomposition `(v / n, v % n)`, and there is one exactly when an edge
      touches `v`. */
  lemma {:induction false} LastStampDecodes(m: nat, n: nat, st: seq<Stamped>, v: nat)
    requires n > 0
    requires forall s :: s in st ==> StampOk(m, n, s)
    ensures LastStamp(st, v).Some? <==> exists s :: s in st && (s.edge.src == v || s.edge.dst == v)
    ensures LastStamp(st, v).Some? ==> LastStamp(st, v).value == (v / n, v % n)
  {
    if |st| > 0 {
      var s := st[|st| - 1];
      var init := st[..|st| - 1];
      assert s in st;
      assert forall x :: x in init ==> x in st;
      assert forall x :: x in st ==> x in init || x == s;
      LastStampDecodes(m, n, init, v);
      if s.edge.dst == v {
        VertexIdDecode(n, s.to.0, s.to.1);
      } else if s.edge.src == v {
        VertexIdDecode(n, s.from.0, s.from.1);
      }
    }
  }

  /** The `states` attribute of vertex `v`: the dict literal
      `{g1name: q, g2name: r}` of the last record (the right entry wins when
      the two names coincide). */
  function StatesAt(st: seq<Stamped>, v: nat, name1: string, name2: string): Option<map<string, nat>>
  {
    match LastStamp(st, v)
    case None => None
    case Some(p) => Some(map[name1 := p.0][name2 := p.1])
  }

  function EdgesOf(st: seq<Stamped>): (r: seq<Edge<Act>>)
    ensures |r| == |st|
    ensures forall e :: e in r <==> exists s :: s in st && s.edge == e
  {
    var r := seq(|st|, k requires 0 <= k < |st| => st[k].edge);
    assert forall s :: s in st ==> s.edge in r by {
      forall s | s in st
        ensures s.edge in r
      {
        var k :| 0 <= k < |st| && st[k] == s;
        assert r[k] == s.edge;
      }
    }
    r
  }

  /** The records `fold` makes, in the order it adds the edges: handshakes,
      then left steps, then right steps. */
  function FoldStamps<V>(a1: Automaton<V>, a2: Automaton<V>, shared: seq<string>): seq<Stamped>
  {
    var n := |a2.g.vs|;
    SharedSteps(n, [a1.name, a2.name], shared, a1.g.es, a2.g.es)
    + IndependentSteps(n, n, [a1.name], shared, a1.g.es, true)
    + IndependentSteps(n, |a1.g.vs|, [a2.name], shared, a2.g.es, false)
  }

  lemma FoldStampsOk<V>(a1: Automaton<V>, a2: Automaton<V>, shared: seq<string>)
    requires WellFormed(a1.g) && WellFormed(a2.g)
    ensures forall s :: s in FoldStamps(a1, a2, shared) ==> StampOk(|a1.g.vs|, |a2.g.vs|, s)
  {
    var m, n := |a1.g.vs|, |a2.g.vs|;
    var sh := SharedSteps(n, [a1.name, a2.name], shared, a1.g.es, a2.g.es);
    var le := IndependentSteps(n, n, [a1.name], shared, a1.g.es, true);
    var ri := IndependentSteps(n, m, [a2.name], shared, a2.g.es, false);
    forall s | s in FoldStamps(a1, a2, shared)
      ensures StampOk(m, n, s)
    {
      assert s in sh || s in le || s in ri;
      SharedStepsHas(n, [a1.name, a2.name], shared, a1.g.es, a2.g.es, s);
      IndependentStepsHas(n, n, [a1.name], shared, a1.g.es, true, s);
      IndependentStepsHas(n, m, [a2.name], shared, a2.g.es, false, s);
      if s in sh {
        var e1, e2 :| e1 in a1.g.es && e2 in a2.g.es && e1.attr.name == e2.attr.name
          && e1.attr.name in shared && s == SharedStamp(n, [a1.name, a2.name], e1.attr.name, e1, e2);
      } else if s in le {
        var act, idx: nat :| act in a1.g.es && act.attr.name !in shared && idx < n
          && s == CopyStamp(n, [a1.name], act, idx, true);
      } else {
        var act, idx: nat :| act in a2.g.es && act.attr.name !in shared && idx < m
          && s == CopyStamp(n, [a2.name], act, idx, false);
      }
    }
  }

  /** sia.py `fold`: the product of `a1` and `a2` synchronised on `shared`;
      `FoldEdgesExact` and `FoldStatesDecode` state its edges and `states`. */
  function Fold<V>(a1: Automaton<V>, a2: Automaton<V>, shared: seq<string>): (r: Automaton<Composite>)
    requires WellFormed(a1.g) && WellFormed(a2.g)
    ensures r.name == a1.name + a2.name
    ensures |r.g.vs| == |a1.g.vs| * |a2.g.vs|
    ensures WellFormed(r.g)
    ensures forall v :: 0 <= v < |r.g.vs| ==> !r.g.vs[v].reach && !r.g.vs[v].end
  {
    var m, n := |a1.g.vs|, |a2.g.vs|;
    var st := FoldStamps(a1, a2, shared);
    var es := EdgesOf(st);
    FoldStampsOk(a1, a2, shared);
    var vs := seq(m * n, v requires 0 <= v < m * n => Composite(false, false, StatesAt(st, v, a1.name, a2.name)));
    assert forall e :: e in es ==> e.src < m * n && e.dst < m * n by {
      forall e | e in es
        ensures e.src < m * n && e.dst < m * n
      {
        var s :| s in st && s.edge == e;
        VertexIdInRange(m, n, s.from.0, s.from.1);
        VertexIdInRange(m, n, s.to.0, s.to.1);
      }
    }
    Automaton(a1.name + a2.name, Graph(vs, es))
  }

  /** Exactly one edge per (listed name, same-named pair) and one copy of every
      unlisted step per state of the other factor. */
  lemma FoldEdgeCount<V>(a1: Automaton<V>, a2: Automaton<V>, shared: seq<string>)
    requires WellFormed(a1.g) && WellFormed(a2.g)
    ensures |Fold(a1, a2, shared).g.es| == SharedCount(shared, a1.g.es, a2.g.es)
      + |Unshared(a1.g.es, shared)| * |a2.g.vs| + |Unshared(a2.g.es, shared)| * |a1.g.vs|
  {
    var m, n := |a1.g.vs|, |a2.g.vs|;
    SharedStepsCount(n, [a1.name, a2.name], shared, a1.g.es, a2.g.es);
    IndependentStepsCount(n, n, [a1.name], shared, a1.g.es, true);
    IndependentStepsCount(n, m, [a2.name], shared, a2.g.es, false);
  }

  /** Every product state an edge touches records its two local states, and
      they are the decomposition of its id (`states[g1name] == v / |g2|`,
      `states[g2name] == v % |g2|`); an untouched state records nothing. */
  lemma FoldStatesDecode<V>(a1: Automaton<V>, a2: Automaton<V>, shared: seq<string>, v: nat)
    requires WellFormed(a1.g) && WellFormed(a2.g)
    requires v < |a1.g.vs| * |a2.g.vs|
    ensures |a2.g.vs| > 0
    ensures Fold(a1, a2, shared).g.vs[v].states ==
      if Touched(Fold(a1, a2, shared).g.es, v)
      then Some(map[a1.name := v / |a2.g.vs|][a2.name := v % |a2.g.vs|])
      else None
  {
    var m, n := |a1.g.vs|, |a2.g.vs|;
    VertexIdOnto(m, n, v);
    var st := FoldStamps(a1, a2, shared);
    FoldStampsOk(a1, a2, shared);
    LastStampDecodes(m, n, st, v);
    var es := Fold(a1, a2, shared).g.es;
    if Touched(es, v) {
      var e :| e in es && (e.src == v || e.dst == v);
      var s :| s in st && s.edge == e;
    }
  }

  /** Some edge starts or ends at `v`. */
  predicate Touched(es: seq<Edge<Act>>, v: nat)
  {
    exists e :: e in es && (e.src == v || e.dst == v)
  }

  /** The edge set of `fold`, stated independently of the construction:
      every edge is a handshake of a same-named pair whose name is listed
      (mode `;`, weight 1, owned by both factors; the modes themselves are
      not compared), or a step of one factor whose name is not listed, copied
      with the other factor's state held fixed; and every such step is there. */
  lemma FoldEdgesExact<V>(a1: Automaton<V>, a2: Automaton<V>, shared: seq<string>, e: Edge<Act>)
    requires WellFormed(a1.g) && WellFormed(a2.g)
    ensures e in Fold(a1, a2, shared).g.es <==>
      || IsHandshake(a1.g.es, a2.g.es, |a2.g.vs|, [a1.name, a2.name], shared, e)
      || IsIndependent(a1.g.es, |a2.g.vs|, |a2.g.vs|, [a1.name], shared, true, e)
      || IsIndependent(a2.g.es, |a2.g.vs|, |a1.g.vs|, [a2.name], shared, false, e)
  {
    var m, n := |a1.g.vs|, |a2.g.vs|;
    var sh := SharedSteps(n, [a1.name, a2.name], shared, a1.g.es, a2.g.es);
    var le := IndependentSteps(n, n, [a1.name], shared, a1.g.es, true);
    var ri := IndependentSteps(n, m, [a2.name], shared, a2.g.es, false);
    assert FoldStamps(a1, a2, shared) == sh + le + ri;
    HandshakeStamps(a1.g.es, a2.g.es, n, [a1.name, a2.name], shared, e);
    IndependentStamps(a1.g.es, n, n, [a1.name], shared, true, e);
    IndependentStamps(a2.g.es, n, m, [a2.name], shared, false, e);
  }

  lemma HandshakeStamps(es1: seq<Edge<Act>>, es2: seq<Edge<Act>>, n: nat, sys: seq<string>, shared: seq<string>, e: Edge<Act>)
    ensures (exists s :: s in SharedSteps(n, sys, shared, es1, es2) && s.edge == e)
      <==> IsHandshake(es1, es2, n, sys, shared, e)
  {
    if s :| s in SharedSteps(n, sys, shared, es1, es2) && s.edge == e {
      SharedStepsHas(n, sys, shared, es1, es2, s);
      var e1, e2 :| e1 in es1 && e2 in es2 && e1.attr.name == e2.attr.name && e1.attr.name in shared
        && s == SharedStamp(n, sys, e1.attr.name, e1, e2);
    }
    if IsHandshake(es1, es2, n, sys, shared, e) {
      var e1, e2 :| e1 in es1 && e2 in es2 && e1.attr.name == e2.attr.name && e1.attr.name in shared
        && e == SharedStamp(n, sys, e1.attr.name, e1, e2).edge;
      SharedStepsHas(n, sys, shared, es1, es2, SharedStamp(n, sys, e1.attr.name, e1, e2));
    }
  }

  lemma IndependentStamps(es: seq<Edge<Act>>, n: nat, count: nat, sys: seq<string>, shared: seq<string>, left: bool, e: Edge<Act>)
    ensures (exists s :: s in IndependentSteps(n, count, sys, shared, es, left) && s.edge == e)
      <==> IsIndependent(es, n, count, sys, shared, left, e)
  {
    if s :| s in IndependentSteps(n, count, sys, shared, es, left) && s.edge == e {
      IndependentStepsHas(n, count, sys, shared, es, left, s);
      var act, idx: nat :| act in es && act.attr.name !in shared && idx < count && s == CopyStamp(n, sys, act, idx, left);
    }
    if IsIndependent(es, n, count, sys, shared, left, e) {
      var act, idx: nat :| act in es && act.attr.name !in shared && idx < count
        && e == CopyStamp(n, sys, act, idx, left).edge;
      IndependentStepsHas(n, count, sys, shared, es, left, CopyStamp(n, sys, act, idx, left));
    }
  }

  /** A handshake between same-named edges of the two factors whose name is
      listed: one internal must step owned by `sys`. */
  ghost predicate IsHandshake(es1: seq<Edge<Act>>, es2: seq<Edge<Act>>, n: nat, sys: seq<string>, shared: seq<string>, e: Edge<Act>)
  {
    exists e1, e2 :: e1 in es1 && e2 in es2 && e1.attr.name == e2.attr.name && e1.attr.name in shared
      && e == SharedStamp(n, sys, e1.attr.name, e1, e2).edge
  }

  /** An unlisted step of one factor (the left one when `left`), taken while the
      other factor stays in state `idx < count`; name, mode and weight are kept. */
  ghost predicate IsIndependent(es: seq<Edge<Act>>, n: nat, count: nat, sys: seq<string>, shared: seq<string>, left: bool, e: Edge<Act>)
  {
    exists act, idx: nat :: act in es && act.attr.name !in shared && idx < count
      && e == CopyStamp(n, sys, act, idx, left).edge
  }
}
