/** The `DlAutomata` class of sa.py: the product of `Automata` extended for
    deadlock detection.  Before folding, every listed step leaving a state
    with a choice is delayed behind an internal `eps` step into a fresh state
    (so the product may commit to it and then get stuck); the product marks
    end states and, after pruning, the dead states (`dl`). */
module SaDl {
  import opened Results
  import opened Graphs
  import opened ProductIds
  import opened Sa

  // ---------------------------------------------------------------------------
  // _foldPreprocess (DlAutomata)

  /** Both components of product state `v` are end states. */
  function EndPair(g1: Graph<SaState, SaAct>, g2: Graph<SaState, SaAct>, v: nat): bool
    requires v < |g1.vs| * |g2.vs|
  {
    VertexIdOnto(|g1.vs|, |g2.vs|, v);
    g1.vs[v / |g2.vs|].end && g2.vs[v % |g2.vs|].end
  }

  /** sa.py `DlAutomata._foldPreprocess`: the base preprocessing, then `dl`
      cleared and `end` set on the pairs of end states. */
  function DlFoldPreprocess(g1: Graph<SaState, SaAct>, g2: Graph<SaState, SaAct>): (r: Graph<SaState, SaAct>)
    ensures |r.vs| == |g1.vs| * |g2.vs| && r.es == []
    ensures forall v :: 0 <= v < |r.vs| ==> r.vs[v].reach && !r.vs[v].dl
    ensures forall v :: 0 <= v < |r.vs| ==> r.vs[v].init == FoldPreprocess(g1, g2).vs[v].init
  {
    var pre := FoldPreprocess(g1, g2);
    Graph(seq(|pre.vs|, v requires 0 <= v < |pre.vs| => pre.vs[v].(dl := false, end := EndPair(g1, g2, v))), [])
  }

  /** The product state of the pair (i, j) is an end state exactly when both i
      and j are, and initial exactly when both are initial. */
  lemma DlFoldPreprocessMarks(g1: Graph<SaState, SaAct>, g2: Graph<SaState, SaAct>, i: nat, j: nat)
    requires i < |g1.vs| && j < |g2.vs|
    ensures VertexId(|g2.vs|, i, j) < |DlFoldPreprocess(g1, g2).vs|
    ensures DlFoldPreprocess(g1, g2).vs[VertexId(|g2.vs|, i, j)].end <==> g1.vs[i].end && g2.vs[j].end
    ensures DlFoldPreprocess(g1, g2).vs[VertexId(|g2.vs|, i, j)].init <==> g1.vs[i].init && g2.vs[j].init
  {
    FoldPreprocessInit(g1, g2, i, j);
    VertexIdDecode(|g2.vs|, i, j);
  }

  // ---------------------------------------------------------------------------
  // _epsilonInsert

  /** The entries of `inc` (edge ids) whose step carries a listed name. */
  function Listed(es: seq<Edge<SaAct>>, inc: seq<nat>, names: seq<string>): (r: seq<nat>)
    requires forall k :: 0 <= k < |inc| ==> inc[k] < |es|
    ensures forall j :: j in r <==> j in inc && es[j].attr.name in names
    ensures Distinct(inc) ==> Distinct(r)
  {
    if |inc| == 0 then []
    else
      var rest := Listed(es, inc[1..], names);
      assert forall j :: j in inc <==> j == inc[0] || j in inc[1..];
      (if es[inc[0]].attr.name in names then [inc[0]] else []) + rest
  }

  /** The steps `_epsilonInsert` collects at vertex `v`: none unless `v`
      has more than one out-edge, otherwise its listed out-edges in
      `adjacent` order. */
  function CollectedAt(g: Graph<SaState, SaAct>, names: seq<string>, v: nat): (r: seq<nat>)
    requires WellFormed(g)
    ensures forall k :: 0 <= k < |r| ==> r[k] < |g.es| && g.es[r[k]].src == v
    ensures Distinct(r)
  {
    var inc := IncidentOut(g, v);
    assert forall k :: 0 <= k < |inc| ==> inc[k] in inc;
    var r := if OutDegree(g.es, v) > 1 then Listed(g.es, inc, names) else [];
    assert forall k :: 0 <= k < |r| ==> r[k] in r;
    r
  }

  lemma CollectedAtHas(g: Graph<SaState, SaAct>, names: seq<string>, v: nat, j: nat)
    requires WellFormed(g)
    ensures j in CollectedAt(g, names, v) <==>
      j < |g.es| && g.es[j].src == v && OutDegree(g.es, v) > 1 && g.es[j].attr.name in names
  {
    var inc := IncidentOut(g, v);
    assert forall k :: 0 <= k < |inc| ==> inc[k] in inc;
  }

  /** The edges `_epsilonInsert` collects, in the order it visits them: the
      vertices from `v` on in index order. */
  function Candidates(g: Graph<SaState, SaAct>, names: seq<string>, v: nat): (r: seq<nat>)
    requires WellFormed(g) && v <= |g.vs|
    ensures forall k :: 0 <= k < |r| ==> r[k] < |g.es| && v <= g.es[r[k]].src
    ensures Distinct(r)
    decreases |g.vs| - v
  {
    if v == |g.vs| then []
    else CollectedAt(g, names, v) + Candidates(g, names, v + 1)
  }

  /** Step `j` is one `_epsilonInsert` delays: it carries a listed name and
      leaves a state with more than one out-edge. */
  predicate Delayed(g: Graph<SaState, SaAct>, names: seq<string>, j: nat)
  {
    j < |g.es| && OutDegree(g.es, g.es[j].src) > 1 && g.es[j].attr.name in names
  }

  /** No step is collected from past the last vertex on. */
  lemma CandidatesNone(g: Graph<SaState, SaAct>, names: seq<string>, v: nat, j: nat)
    requires WellFormed(g) && v == |g.vs|
    ensures j in Candidates(g, names, v) <==>
      Delayed(g, names, j) && v <= g.es[j].src
  {
    if j < |g.es| {
      assert g.es[j] in g.es;
    }
  }

  /** One vertex of `CandidatesHas`: what is collected from `v` on, given
      what is collected from `v + 1` on. */
  lemma CandidatesStep(g: Graph<SaState, SaAct>, names: seq<string>, v: nat, j: nat)
    requires WellFormed(g) && v < |g.vs|
    requires j in Candidates(g, names, v + 1) <==>
      Delayed(g, names, j) && v + 1 <= g.es[j].src
    ensures j in Candidates(g, names, v) <==>
      Delayed(g, names, j) && v <= g.es[j].src
  {
    var here, rest := CollectedAt(g, names, v), Candidates(g, names, v + 1);
    assert Candidates(g, names, v) == here + rest;
    if j >= |g.es| {
      assert j !in here && j !in rest;
    } else if g.es[j].src == v {
      CollectedAtHas(g, names, v, j);
      assert j !in rest;
    } else {
      assert j !in here;
    }
  }

  /** Collected from `v` on are exactly the listed steps leaving a state from
      `v` on that has more than one out-edge. */
  lemma {:induction false} CandidatesHas(g: Graph<SaState, SaAct>, names: seq<string>, v: nat, j: nat)
    requires WellFormed(g) && v <= |g.vs|
    ensures j in Candidates(g, names, v) <==>
      Delayed(g, names, j) && v <= g.es[j].src
    decreases |g.vs| - v
  {
    if v < |g.vs| {
      CandidatesHas(g, names, v + 1, j);
      CandidatesStep(g, names, v, j);
    } else {
      CandidatesNone(g, names, v, j);
    }
  }

  /** The state `_epsilonInsert` adds for each delayed step. */
  const Fresh := SaState(true, false, false, false)

  /** The two steps that replace step `e`, through the fresh state `w`: an
      `eps` step into `w`, then the step itself, now with weight 1. */
  function Detour(e: Edge<SaAct>, w: nat): seq<Edge<SaAct>>
  {
    [Edge(e.src, w, Eps), Edge(w, e.dst, SaAct(e.attr.name, e.attr.mode, 1))]
  }

  /** The detours of the collected steps `sel[k..]`, the k-th through state `n + k`. */
  function Detours(es: seq<Edge<SaAct>>, sel: seq<nat>, n: nat, k: nat): (r: seq<Edge<SaAct>>)
    requires forall i :: 0 <= i < |sel| ==> sel[i] < |es|
    requires k <= |sel|
    ensures |r| == 2 * (|sel| - k)
    ensures forall e :: e in r <==> exists i :: k <= i < |sel| && e in Detour(es[sel[i]], n + i)
    decreases |sel| - k
  {
    if k == |sel| then []
    else
      var rest := Detours(es, sel, n, k + 1);
      assert forall e :: e in rest <==> exists i :: k + 1 <= i < |sel| && e in Detour(es[sel[i]], n + i);
      Detour(es[sel[k]], n + k) + rest
  }

  /** The edges whose ids are not in `sel`, in id order (`delete_edges`). */
  function Without(es: seq<Edge<SaAct>>, sel: seq<nat>, j: nat): (r: seq<Edge<SaAct>>)
    requires j <= |es|
    ensures forall e :: e in r <==> exists i :: j <= i < |es| && i !in sel && es[i] == e
    decreases |es| - j
  {
    if j == |es| then []
    else (if j in sel then [] else [es[j]]) + Without(es, sel, j + 1)
  }

  /** The ids of `sel` in the range [lo, hi). */
  function Among(sel: seq<nat>, lo: nat, hi: nat): set<nat>
  {
    set i | i in sel && lo <= i < hi
  }

  /** Number of ids below `|es|` outside `sel`, counted from `j`. */
  lemma {:induction false} WithoutCount(es: seq<Edge<SaAct>>, sel: seq<nat>, j: nat)
    requires j <= |es|
    ensures |Without(es, sel, j)| == |es| - j - |Among(sel, j, |es|)|
    decreases |es| - j
  {
    if j < |es| {
      WithoutCount(es, sel, j + 1);
      var S := Among(sel, j, |es|);
      var T := Among(sel, j + 1, |es|);
      if j in sel {
        assert S == T + {j};
      } else {
        assert S == T;
      }
    }
  }

  /** sa.py `_epsilonInsert(g, names_s)`. */
  function EpsilonInsert(g: Graph<SaState, SaAct>, names: seq<string>): (r: Graph<SaState, SaAct>)
    requires WellFormed(g)
    ensures |r.vs| == |g.vs| + |Candidates(g, names, 0)|
    ensures r.vs[..|g.vs|] == g.vs
    ensures forall w :: |g.vs| <= w < |r.vs| ==> r.vs[w] == Fresh
  {
    var sel := Candidates(g, names, 0);
    assert forall i :: 0 <= i < |sel| ==> sel[i] in sel;
    Graph(g.vs + seq(|sel|, _ => Fresh), Without(g.es, sel, 0) + Detours(g.es, sel, |g.vs|, 0))
  }

  /** The steps after `_epsilonInsert`: every step not collected is still
      there, and each collected step `sel[k]` is replaced by its detour
      through the fresh state `|g| + k`.  Collected are exactly the listed
      steps leaving a state with more than one out-edge. */
  lemma EpsilonInsertEdges(g: Graph<SaState, SaAct>, names: seq<string>, e: Edge<SaAct>)
    requires WellFormed(g)
    ensures var sel := Candidates(g, names, 0);
      e in EpsilonInsert(g, names).es <==>
        || (exists i :: 0 <= i < |g.es| && i !in sel && g.es[i] == e)
        || (exists k :: 0 <= k < |sel| && e in Detour(g.es[sel[k]], |g.vs| + k))
  {
  }

  /** Distinct ids below `n` number at most `n`. */
  lemma {:induction false} DistinctBelow(sel: seq<nat>, n: nat)
    requires Distinct(sel) && forall i :: 0 <= i < |sel| ==> sel[i] < n
    ensures |Among(sel, 0, n)| == |sel|
  {
    if |sel| > 0 {
      var tail := sel[1..];
      DistinctBelow(tail, n);
      var S := Among(sel, 0, n);
      var T := Among(tail, 0, n);
      assert forall i :: i in sel <==> i == sel[0] || i in tail;
      assert sel[0] !in tail;
      assert S == T + {sel[0]};
    }
  }

  /** One state and one step more per collected step: it loses the step and
      gains two. */
  lemma EpsilonInsertCount(g: Graph<SaState, SaAct>, names: seq<string>)
    requires WellFormed(g)
    ensures |EpsilonInsert(g, names).vs| == |g.vs| + |Candidates(g, names, 0)|
    ensures |EpsilonInsert(g, names).es| == |g.es| + |Candidates(g, names, 0)|
  {
    var sel := Candidates(g, names, 0);
    WithoutCount(g.es, sel, 0);
    DistinctBelow(sel, |g.es|);
    var kept, added := Without(g.es, sel, 0), Detours(g.es, sel, |g.vs|, 0);
    assert EpsilonInsert(g, names).es == kept + added;
    assert |kept| == |g.es| - |sel|;
  }

  /** The original step a step after `_epsilonInsert` comes from: the step
      itself when it was kept, or the delayed step whose detour runs through
      the fresh state `w`. */
  lemma EpsilonInsertOrigin(g: Graph<SaState, SaAct>, names: seq<string>, e: Edge<SaAct>) returns (e0: Edge<SaAct>, w: nat)
    requires WellFormed(g) && e in EpsilonInsert(g, names).es
    ensures e0 in g.es
    ensures e == e0 || (|g.vs| <= w < |g.vs| + |Candidates(g, names, 0)| && e in Detour(e0, w))
  {
    var sel := Candidates(g, names, 0);
    assert EpsilonInsert(g, names).es == Without(g.es, sel, 0) + Detours(g.es, sel, |g.vs|, 0);
    if e in Without(g.es, sel, 0) {
      e0 := KeptOrigin(g.es, sel, e);
      w := 0;
    } else {
      e0, w := DetourOrigin(g.es, sel, |g.vs|, e);
    }
  }

  /** A kept step is an original one. */
  lemma KeptOrigin(es: seq<Edge<SaAct>>, sel: seq<nat>, e: Edge<SaAct>) returns (e0: Edge<SaAct>)
    requires e in Without(es, sel, 0)
    ensures e0 in es && e == e0
  {
    var i :| 0 <= i < |es| && i !in sel && es[i] == e;
    e0 := es[i];
  }

  /** A detour step belongs to the detour of a collected step, through one
      of the fresh states. */
  lemma DetourOrigin(es: seq<Edge<SaAct>>, sel: seq<nat>, n: nat, e: Edge<SaAct>) returns (e0: Edge<SaAct>, w: nat)
    requires forall i :: 0 <= i < |sel| ==> sel[i] < |es|
    requires e in Detours(es, sel, n, 0)
    ensures e0 in es && n <= w < n + |sel| && e in Detour(e0, w)
  {
    var k :| 0 <= k < |sel| && e in Detour(es[sel[k]], n + k);
    e0, w := es[sel[k]], n + k;
  }

  /** Each step after `_epsilonInsert` joins existing states. */
  lemma EpsilonInsertEdgeInRange(g: Graph<SaState, SaAct>, names: seq<string>, e: Edge<SaAct>)
    requires WellFormed(g) && e in EpsilonInsert(g, names).es
    ensures e.src < |EpsilonInsert(g, names).vs| && e.dst < |EpsilonInsert(g, names).vs|
  {
    var e0, w := EpsilonInsertOrigin(g, names, e);
    assert e0.src < |g.vs| && e0.dst < |g.vs|;
  }

  /** Every step after `_epsilonInsert` joins existing states. */
  lemma EpsilonInsertWellFormed(g: Graph<SaState, SaAct>, names: seq<string>)
    requires WellFormed(g)
    ensures WellFormed(EpsilonInsert(g, names))
  {
    forall e | e in EpsilonInsert(g, names).es
      ensures e.src < |EpsilonInsert(g, names).vs| && e.dst < |EpsilonInsert(g, names).vs|
    {
      EpsilonInsertEdgeInRange(g, names, e);
    }
  }

  /** A step of a detour is the `eps` step or the delayed step's label with
      another weight. */
  lemma DetourLabel(e0: Edge<SaAct>, w: nat, e: Edge<SaAct>)
    requires e in Detour(e0, w)
    ensures e.attr == Eps || e.attr == SaAct(e0.attr.name, e0.attr.mode, e.attr.weight)
  {
  }

  /** A step after `_epsilonInsert` is the internal `eps` step or carries the
      name and mode of an original step. */
  lemma EpsilonInsertLabelFrom(g: Graph<SaState, SaAct>, names: seq<string>, e: Edge<SaAct>)
    requires WellFormed(g) && e in EpsilonInsert(g, names).es
    ensures e.attr == Eps || exists e0 :: e0 in g.es && e.attr == SaAct(e0.attr.name, e0.attr.mode, e.attr.weight)
  {
    var e0, w := EpsilonInsertOrigin(g, names, e);
    if e != e0 {
      DetourLabel(e0, w, e);
    }
    assert e.attr == Eps || e.attr == SaAct(e0.attr.name, e0.attr.mode, e.attr.weight);
  }

  /** Every original step survives `_epsilonInsert` with its name and mode. */
  lemma EpsilonInsertLabelKept(g: Graph<SaState, SaAct>, names: seq<string>, e0: Edge<SaAct>)
    requires WellFormed(g) && e0 in g.es
    ensures exists e :: e in EpsilonInsert(g, names).es && e.attr == SaAct(e0.attr.name, e0.attr.mode, e.attr.weight)
  {
    var sel := Candidates(g, names, 0);
    var i :| 0 <= i < |g.es| && g.es[i] == e0;
    if k :| 0 <= k < |sel| && sel[k] == i {
      var e := Detour(g.es[sel[k]], |g.vs| + k)[1];
      EpsilonInsertEdges(g, names, e);
    } else {
      EpsilonInsertEdges(g, names, e0);
    }
  }

  /** The classification of a pair of steps ignores their weights. */
  lemma IsActionSharedIgnoresWeight(a: SaAct, b: SaAct, wa: int, wb: int)
    ensures IsActionShared(a.(weight := wa), b.(weight := wb)).Ok? == IsActionShared(a, b).Ok?
  {
  }

  /** Delaying steps adds no clash: the factors after `_epsilonInsert` clash
      exactly when the original factors do. */
  lemma EpsilonInsertNoClash(g1: Graph<SaState, SaAct>, g2: Graph<SaState, SaAct>, names1: seq<string>, names2: seq<string>)
    requires WellFormed(g1) && WellFormed(g2)
    ensures NoClash(EpsilonInsert(g1, names1).es, EpsilonInsert(g2, names2).es) <==> NoClash(g1.es, g2.es)
  {
    var h1, h2 := EpsilonInsert(g1, names1), EpsilonInsert(g2, names2);
    if NoClash(g1.es, g2.es) {
      forall e1, e2 | e1 in h1.es && e2 in h2.es
        ensures IsActionShared(e1.attr, e2.attr).Ok?
      {
        EpsilonInsertLabelFrom(g1, names1, e1);
        EpsilonInsertLabelFrom(g2, names2, e2);
        if e1.attr == Eps {
        } else if e2.attr == Eps {
          IsActionSharedSymmetric(e2.attr, e1.attr);
        } else {
          var d1 :| d1 in g1.es && e1.attr == SaAct(d1.attr.name, d1.attr.mode, e1.attr.weight);
          var d2 :| d2 in g2.es && e2.attr == SaAct(d2.attr.name, d2.attr.mode, e2.attr.weight);
          IsActionSharedIgnoresWeight(d1.attr, d2.attr, e1.attr.weight, e2.attr.weight);
        }
      }
    }
    if NoClash(h1.es, h2.es) {
      forall d1, d2 | d1 in g1.es && d2 in g2.es
        ensures IsActionShared(d1.attr, d2.attr).Ok?
      {
        EpsilonInsertLabelKept(g1, names1, d1);
        EpsilonInsertLabelKept(g2, names2, d2);
        var e1 :| e1 in h1.es && e1.attr == SaAct(d1.attr.name, d1.attr.mode, e1.attr.weight);
        var e2 :| e2 in h2.es && e2.attr == SaAct(d2.attr.name, d2.attr.mode, e2.attr.weight);
        IsActionSharedIgnoresWeight(d1.attr, d2.attr, e1.attr.weight, e2.attr.weight);
      }
    }
  }

  /** The initial states survive `_epsilonInsert` and no fresh state is initial. */
  lemma EpsilonInsertHasInit(g: Graph<SaState, SaAct>, names: seq<string>)
    requires WellFormed(g)
    ensures (exists i :: 0 <= i < |EpsilonInsert(g, names).vs| && EpsilonInsert(g, names).vs[i].init) <==>
      (exists i :: 0 <= i < |g.vs| && g.vs[i].init)
  {
    var r := EpsilonInsert(g, names);
    if i :| 0 <= i < |r.vs| && r.vs[i].init && i < |g.vs| {
      assert r.vs[..|g.vs|][i] == g.vs[i];
    }
    if i :| 0 <= i < |g.vs| && g.vs[i].init {
      assert r.vs[..|g.vs|][i] == g.vs[i];
    }
  }

  // ---------------------------------------------------------------------------
  // _foldPostprocess (DlAutomata) and isDeadlocking

  /** State `v` cannot move and is not a proper final state: it has no
      out-edge and is not an end state, or is an end state that is also the
      initial one. */
  predicate Dead(g: Graph<SaState, SaAct>, v: nat)
    requires v < |g.vs|
  {
    OutDegree(g.es, v) == 0 && (!g.vs[v].end || g.vs[v].init)
  }

  /** The two `select(...)['dl'] = True` lines of `_foldPostprocess`. */
  function DlMark(g: Graph<SaState, SaAct>): (r: Graph<SaState, SaAct>)
    ensures r.es == g.es && |r.vs| == |g.vs|
    ensures forall v :: 0 <= v < |g.vs| ==> r.vs[v].(dl := g.vs[v].dl) == g.vs[v]
    ensures forall v :: 0 <= v < |g.vs| ==> (r.vs[v].dl <==> g.vs[v].dl || Dead(g, v))
  {
    Graph(seq(|g.vs|, v requires 0 <= v < |g.vs| => g.vs[v].(dl := g.vs[v].dl || Dead(g, v))), g.es)
  }

  /** On a graph with no state marked yet, the marked states are exactly the
      dead ones of the marked graph. */
  lemma DlMarkExact(g: Graph<SaState, SaAct>)
    requires forall v :: 0 <= v < |g.vs| ==> !g.vs[v].dl
    ensures forall v :: 0 <= v < |DlMark(g).vs| ==> (DlMark(g).vs[v].dl <==> Dead(DlMark(g), v))
  {
    var r := DlMark(g);
    forall v | 0 <= v < |r.vs|
      ensures r.vs[v].dl <==> Dead(r, v)
    {
      assert r.vs[v].(dl := g.vs[v].dl) == g.vs[v];
    }
  }

  /** Postprocessing a fold whose states are all reached leaves an automaton
      rooted at an initial state; marking deadlocks changes neither the
      initial states nor the edges, so it stays rooted. */
  lemma DlMarkRooted(a: SaAutomaton)
    requires forall v :: 0 <= v < |a.g.vs| ==> a.g.vs[v].reach
    requires exists v :: 0 <= v < |a.g.vs| && a.g.vs[v].init
    ensures RootedAtInit(DlMark(FoldPostprocess(a).value.g))
  {
    PostprocessRooted(a);
    DlMarkKeepsRooted(FoldPostprocess(a).value.g);
  }

  lemma DlMarkKeepsRooted(g: Graph<SaState, SaAct>)
    requires RootedAtInit(g)
    ensures RootedAtInit(DlMark(g))
  {
    var s :| 0 <= s < |g.vs| && g.vs[s].init && forall w :: 0 <= w < |g.vs| ==> g.vs[w].init || Reachable(g.es, s, w);
    assert DlMark(g).vs[s].init;
  }

  /** Number of states marked `dl` among `vs[..k]`. */
  function CountDl(vs: seq<SaState>, k: nat): (r: nat)
    requires k <= |vs|
    ensures r <= k
  {
    if k == 0 then 0 else CountDl(vs, k - 1) + (if vs[k - 1].dl then 1 else 0)
  }

  lemma {:induction false} CountDlPositive(vs: seq<SaState>, k: nat)
    requires k <= |vs|
    ensures CountDl(vs, k) > 0 <==> exists v :: 0 <= v < k && vs[v].dl
  {
    if k > 0 {
      CountDlPositive(vs, k - 1);
    }
  }

  /** sa.py `isDeadlocking`: some state is marked `dl`. */
  function IsDeadlocking(a: SaAutomaton): (r: bool)
    ensures r <==> exists v :: 0 <= v < |a.g.vs| && a.g.vs[v].dl
  {
    CountDlPositive(a.g.vs, |a.g.vs|);
    CountDl(a.g.vs, |a.g.vs|) > 0
  }

  // ---------------------------------------------------------------------------
  // _mergeVertices

  /** Where `_mergeVertices(v1, v2)` sends vertex `i`: the larger of the two
      onto the smaller, the vertices above it down by one. */
  function Merged(v1: nat, v2: nat, i: nat): nat
  {
    var lo, hi := if v1 <= v2 then v1 else v2, if v1 <= v2 then v2 else v1;
    if i == hi then lo else if i > hi then i - 1 else i
  }

  /** The index map `v_new` that `_mergeVertices(v1, v2)` hands to
      `contract_vertices` on a graph of `n` vertices; `None` where the list
      assignment raises (the larger vertex is not below `n`). */
  method MergeMap(n: nat, v1: nat, v2: nat) returns (r: Option<seq<nat>>)
    ensures r.None? <==> v1 >= n || v2 >= n
    ensures r.Some? ==> |r.value| == n && forall i :: 0 <= i < n ==> r.value[i] == Merged(v1, v2, i)
  {
    var val, idx := if v1 <= v2 then v1 else v2, if v1 <= v2 then v2 else v1;
    if idx >= n {
      return None;
    }
    var a: seq<nat> := seq(n, i => i);
    a := a[idx := a[val]];
    var v := idx + 1;
    while v < n
      invariant idx + 1 <= v <= n && |a| == n
      invariant forall i :: 0 <= i < n ==> a[i] == (if i == idx then val else if idx < i < v then i - 1 else i)
    {
      a := a[v := a[v] - 1];
      v := v + 1;
    }
    return Some(a);
  }

  /** The vertex `_mergeVertices(v1, v2)` sends onto index `k`: the inverse
      of `Merged` away from the larger of the two. */
  function Unmerged(v1: nat, v2: nat, k: nat): nat
  {
    var hi := if v1 <= v2 then v2 else v1;
    if k < hi then k else k + 1
  }

  /** With two different vertices, the map identifies exactly those two and
      is onto the `n - 1` remaining indices, `Unmerged` picking a preimage. */
  lemma MergedContracts(n: nat, v1: nat, v2: nat)
    requires v1 < n && v2 < n && v1 != v2
    ensures forall i :: 0 <= i < n ==> Merged(v1, v2, i) < n - 1
    ensures forall i, j :: 0 <= i < j < n ==> (Merged(v1, v2, i) == Merged(v1, v2, j) <==> {i, j} == {v1, v2})
    ensures forall k :: 0 <= k < n - 1 ==> Unmerged(v1, v2, k) < n && Merged(v1, v2, Unmerged(v1, v2, k)) == k
  {
    forall i, j | 0 <= i < j < n
      ensures Merged(v1, v2, i) == Merged(v1, v2, j) <==> {i, j} == {v1, v2}
    {
      if {i, j} == {v1, v2} {
        assert i in {v1, v2} && j in {v1, v2};
      }
    }
  }

  /** With the same vertex twice, the map merges that vertex with the next
      one instead of leaving the graph alone. */
  lemma MergedSelf(n: nat, v: nat)
    requires v + 1 < n
    ensures Merged(v, v, v) == Merged(v, v, v + 1)
  {
  }

  // ---------------------------------------------------------------------------
  // DlAutomata.__mul__

  /** Pruning keeps the `dl` flags: with none set before, none is set after. */
  lemma PostprocessKeepsNoDl(a: SaAutomaton)
    requires FoldPostprocess(a).Ok?
    requires forall v :: 0 <= v < |a.g.vs| ==> !a.g.vs[v].dl
    ensures forall u :: 0 <= u < |FoldPostprocess(a).value.g.vs| ==> !FoldPostprocess(a).value.g.vs[u].dl
  {
    var del := Pruned(a.g, FirstInit(a.g.vs).value);
    var r := FoldPostprocess(a).value.g;
    forall u | 0 <= u < |r.vs|
      ensures !r.vs[u].dl
    {
      RankOnto(del, |a.g.vs|, u);
    }
  }

  /** The fold of the two factors after epsilon insertion, before pruning:
      it fails on a clash of the original factors, and has an initial state
      exactly when both original factors do. */
  function DlFold(a1: SaAutomaton, a2: SaAutomaton, names: seq<string>): (r: Result<SaAutomaton, SaError>)
    requires WellFormed(a1.g) && WellFormed(a2.g)
    ensures r.Err? <==> !NoClash(a1.g.es, a2.g.es)
    ensures r.Err? ==> r.error.Incompatible?
    ensures r.Ok? ==> r.value.name == "fold" && forall v :: 0 <= v < |r.value.g.vs| ==> !r.value.g.vs[v].dl
    ensures r.Ok? ==> forall v :: 0 <= v < |r.value.g.vs| ==> r.value.g.vs[v].reach
    ensures r.Ok? ==> ((exists v :: 0 <= v < |r.value.g.vs| && r.value.g.vs[v].init) <==>
      (exists i :: 0 <= i < |a1.g.vs| && a1.g.vs[i].init) && (exists j :: 0 <= j < |a2.g.vs| && a2.g.vs[j].init))
  {
    var g1, g2 := EpsilonInsert(a1.g, names), EpsilonInsert(a2.g, names);
    EpsilonInsertNoClash(a1.g, a2.g, names, names);
    var pre := DlFoldPreprocess(g1, g2);
    match FoldEdges(g1, g2)
    case Err(c) => Err(c)
    case Ok(es) =>
      DlFoldHasInit(a1.g, a2.g, names);
      Ok(SaAutomaton("fold", Graph(pre.vs, es)))
  }

  /** After epsilon insertion, the preprocessed product has an initial state
      exactly when both original factors have one. */
  lemma DlFoldHasInit(g1: Graph<SaState, SaAct>, g2: Graph<SaState, SaAct>, names: seq<string>)
    requires WellFormed(g1) && WellFormed(g2)
    ensures var pre := DlFoldPreprocess(EpsilonInsert(g1, names), EpsilonInsert(g2, names));
      (exists v :: 0 <= v < |pre.vs| && pre.vs[v].init) <==>
      (exists i :: 0 <= i < |g1.vs| && g1.vs[i].init) && (exists j :: 0 <= j < |g2.vs| && g2.vs[j].init)
  {
    var h1, h2 := EpsilonInsert(g1, names), EpsilonInsert(g2, names);
    var pre := DlFoldPreprocess(h1, h2);
    EpsilonInsertHasInit(g1, names);
    EpsilonInsertHasInit(g2, names);
    FoldPreprocessHasInit(h1, h2);
    assert forall v :: 0 <= v < |pre.vs| ==> (pre.vs[v].init <==> FoldPreprocess(h1, h2).vs[v].init);
  }

  /** A product without initial state means a factor without one. */
  lemma NoInitSplits(g: Graph<SaState, SaAct>, g1: Graph<SaState, SaAct>, g2: Graph<SaState, SaAct>)
    requires (exists v :: 0 <= v < |g.vs| && g.vs[v].init) <==>
      (exists i :: 0 <= i < |g1.vs| && g1.vs[i].init) && (exists j :: 0 <= j < |g2.vs| && g2.vs[j].init)
    ensures (forall u :: 0 <= u < |g.vs| ==> !g.vs[u].init) <==>
      (forall i :: 0 <= i < |g1.vs| ==> !g1.vs[i].init) || (forall j :: 0 <= j < |g2.vs| ==> !g2.vs[j].init)
  {
  }

  /** `a1 * a2` for `DlAutomata`: shared names, epsilon insertion in both
      factors, the fold, pruning and dead-state marking.  The final
      `_epsilonReduce` is not part of this model. */
  function DlProduct(a1: SaAutomaton, a2: SaAutomaton): (r: Result<SaAutomaton, SaError>)
    requires WellFormed(a1.g) && WellFormed(a2.g)
    ensures r.Err? && r.error.Incompatible? <==> !NoClash(a1.g.es, a2.g.es)
    ensures r == Err(NoInitialState) <==>
      && NoClash(a1.g.es, a2.g.es)
      && ((forall i :: 0 <= i < |a1.g.vs| ==> !a1.g.vs[i].init) || (forall j :: 0 <= j < |a2.g.vs| ==> !a2.g.vs[j].init))
    ensures r.Ok? ==> r.value.name == "fold"
    ensures r.Ok? ==> forall v :: 0 <= v < |r.value.g.vs| ==> (r.value.g.vs[v].dl <==> Dead(r.value.g, v))
    ensures r.Ok? ==> && GetSharedNames(a1.g.es, a2.g.es).Ok?
                      && DlFold(a1, a2, GetSharedNames(a1.g.es, a2.g.es).value).Ok?
                      && FoldPostprocess(DlFold(a1, a2, GetSharedNames(a1.g.es, a2.g.es).value).value).Ok?
                      && r.value == SaAutomaton("fold", DlMark(FoldPostprocess(DlFold(a1, a2, GetSharedNames(a1.g.es, a2.g.es).value).value).value.g))
    ensures r.Ok? ==> RootedAtInit(r.value.g)
  {
    match GetSharedNames(a1.g.es, a2.g.es)
    case Err(c) => Err(c)
    case Ok(names) =>
      match DlFold(a1, a2, names)
      case Err(c) => Err(c)
      case Ok(folded) =>
        NoInitSplits(folded.g, a1.g, a2.g);
        match FoldPostprocess(folded)
        case Err(c) => Err(c)
        case Ok(a) =>
          PostprocessKeepsNoDl(folded);
          DlMarkRooted(folded);
          DlMarkExact(a.g);
          Ok(SaAutomaton(a.name, DlMark(a.g)))
  }
}
