/** `ifaProd` of ifa.py: the product of interface automata built from JSON
    descriptions.  A receive and a send of the same name become one `;` step
    of the product.  Same-named steps that cannot synchronise are reported as
    incompatible but are otherwise treated like unrelated ones: every step
    without a partner is interleaved.  After each product only the states
    reachable from state 0 are kept. */
module Ifa {
  import opened Results
  import opened Graphs
  import opened ProductIds
  import opened Replication
  import opened IfaJson
  import Sa

  /** What `isActionShared` makes of a pair of steps: `True`, `False` with an
      "incompatible" message, or plain `False`. */
  datatype Verdict = Shared | Incompatible | Unrelated

  datatype IfaError =
    | UnboundProduct  // `return g_new` with no product built: fewer than two automata

  // ---------------------------------------------------------------------------
  // isActionShared, addActShared

  /** ifa.py `isActionShared`: a pair of steps synchronises when it is a
      receive and a send of the same name; any other same-named pair is
      incompatible. */
  function IsActionShared(a: IfaAct, b: IfaAct): (r: Verdict)
    ensures r == Shared <==> a.name == b.name && Sa.Polar(a.mode, b.mode)
    ensures r == Incompatible <==> a.name == b.name && !Sa.Polar(a.mode, b.mode)
  {
    if a.name == b.name then
      if Sa.Polar(a.mode, b.mode) then Shared else Incompatible
    else Unrelated
  }

  /** The verdict does not depend on the order of the pair.  It agrees with
      the check of sa.py on what synchronises, but, unlike sa.py, it calls a
      same-named pair with an internal `;` step incompatible. */
  lemma IsActionSharedAgrees(a: IfaAct, b: IfaAct)
    ensures IsActionShared(a, b) == IsActionShared(b, a)
    ensures IsActionShared(a, b) == Shared <==> Sa.Shares(Sa.SaAct(a.name, a.mode, 0), Sa.SaAct(b.name, b.mode, 0))
    ensures IsActionShared(a, b) == Incompatible && a.mode != ";" && b.mode != ";" <==>
      Sa.IsActionShared(Sa.SaAct(a.name, a.mode, 0), Sa.SaAct(b.name, b.mode, 0)).Err?
  {
  }

  /** ifa.py `addActShared`: the `;` step of the product for the pair
      (`act1` of the product so far, `act2` of the new automaton). */
  function AddActShared(act1: Edge<IfaAct>, act2: Edge<IfaAct>, mod: nat): (r: Edge<IfaAct>)
    ensures r.attr == IfaAct(act1.attr.name + ";", act1.attr.name, ";")
  {
    Edge(VertexId(mod, act1.src, act2.src), VertexId(mod, act1.dst, act2.dst),
         IfaAct(act1.attr.name + ";", act1.attr.name, ";"))
  }

  /** The ends of a `;` step decode back to the ends of the pair. */
  lemma AddActSharedDecode(act1: Edge<IfaAct>, act2: Edge<IfaAct>, mod: nat)
    requires act2.src < mod && act2.dst < mod
    ensures AddActShared(act1, act2, mod).src / mod == act1.src && AddActShared(act1, act2, mod).src % mod == act2.src
    ensures AddActShared(act1, act2, mod).dst / mod == act1.dst && AddActShared(act1, act2, mod).dst % mod == act2.dst
  {
    VertexIdDecode(mod, act1.src, act2.src);
    VertexIdDecode(mod, act1.dst, act2.dst);
  }

  // ---------------------------------------------------------------------------
  // Shared actions (ifa.py:110-119)

  /** The inner loop for one step `act1`: a `;` step per partner, in order. */
  function SharedRow(act1: Edge<IfaAct>, es2: seq<Edge<IfaAct>>, mod: nat): seq<Edge<IfaAct>>
  {
    if |es2| == 0 then []
    else
      (if IsActionShared(act1.attr, es2[0].attr) == Shared then [AddActShared(act1, es2[0], mod)] else [])
      + SharedRow(act1, es2[1..], mod)
  }

  /** The `;` steps of the product, row by row. */
  function SharedEdges(es1: seq<Edge<IfaAct>>, es2: seq<Edge<IfaAct>>, mod: nat): seq<Edge<IfaAct>>
  {
    if |es1| == 0 then [] else SharedRow(es1[0], es2, mod) + SharedEdges(es1[1..], es2, mod)
  }

  /** A `;` step of the product. */
  ghost predicate IsShared(es1: seq<Edge<IfaAct>>, es2: seq<Edge<IfaAct>>, mod: nat, e: Edge<IfaAct>)
  {
    exists e1, e2 :: e1 in es1 && e2 in es2 && IsActionShared(e1.attr, e2.attr) == Shared && e == AddActShared(e1, e2, mod)
  }

  lemma {:induction false} SharedRowHas(act1: Edge<IfaAct>, es2: seq<Edge<IfaAct>>, mod: nat, e: Edge<IfaAct>)
    ensures e in SharedRow(act1, es2, mod) <==>
      exists e2 :: e2 in es2 && IsActionShared(act1.attr, e2.attr) == Shared && e == AddActShared(act1, e2, mod)
  {
    if |es2| > 0 {
      SharedRowHas(act1, es2[1..], mod, e);
      assert forall e2 :: e2 in es2 <==> e2 == es2[0] || e2 in es2[1..];
    }
  }

  /** The shared loop adds one `;` step per synchronising pair and nothing else. */
  lemma {:induction false} SharedEdgesHas(es1: seq<Edge<IfaAct>>, es2: seq<Edge<IfaAct>>, mod: nat, e: Edge<IfaAct>)
    ensures e in SharedEdges(es1, es2, mod) <==> IsShared(es1, es2, mod, e)
  {
    if |es1| > 0 {
      SharedRowHas(es1[0], es2, mod, e);
      SharedEdgesHas(es1[1..], es2, mod, e);
      assert forall e1 :: e1 in es1 <==> e1 == es1[0] || e1 in es1[1..];
      if IsShared(es1, es2, mod, e) {
        var e1, e2 :| e1 in es1 && e2 in es2 && IsActionShared(e1.attr, e2.attr) == Shared && e == AddActShared(e1, e2, mod);
        if e1 != es1[0] {
          assert IsShared(es1[1..], es2, mod, e);
        }
      }
    }
  }

  /** A step with a partner on the other side. */
  predicate Matched(e: Edge<IfaAct>, other: seq<Edge<IfaAct>>, left: bool)
  {
    exists o :: o in other &&
      (if left then IsActionShared(e.attr, o.attr) else IsActionShared(o.attr, e.attr)) == Shared
  }

  /** What `delete_edges(del1)` (`left`) or `delete_edges(del2)` leaves: the
      steps with no partner, in id order. */
  function Unmatched(es: seq<Edge<IfaAct>>, other: seq<Edge<IfaAct>>, left: bool): (r: seq<Edge<IfaAct>>)
    ensures forall e :: e in r <==> e in es && !Matched(e, other, left)
    ensures |r| <= |es|
  {
    if |es| == 0 then []
    else (if Matched(es[0], other, left) then [] else [es[0]]) + Unmatched(es[1..], other, left)
  }

  // ---------------------------------------------------------------------------
  // The product graph (ifa.py:103-141)

  /** The product before pruning: `|gp| * |gi|` states; the `;` steps, then
      the unmatched steps of `gp` copied over every state of `gi`, then the
      unmatched steps of `gi` copied over every state of `gp`. */
  function Fold(gp: IfaGraph, gi: IfaGraph): (r: IfaGraph)
    ensures |r.vs| == |gp.vs| * |gi.vs|
  {
    var mod := |gi.vs|;
    Graph(seq(|gp.vs| * |gi.vs|, _ => ()),
          SharedEdges(gp.es, gi.es, mod)
          + Replicate(mod, |gi.vs|, Unmatched(gp.es, gi.es, true), true)
          + Replicate(mod, |gp.vs|, Unmatched(gi.es, gp.es, false), false))
  }

  /** The steps of the product: a synchronising pair, or a step with no
      partner taken while the other automaton stays in one of its states. */
  lemma FoldExact(gp: IfaGraph, gi: IfaGraph, e: Edge<IfaAct>)
    ensures e in Fold(gp, gi).es <==>
      || IsShared(gp.es, gi.es, |gi.vs|, e)
      || (exists act, idx: nat :: act in gp.es && !Matched(act, gi.es, true) && idx < |gi.vs| && e == CopyEdge(|gi.vs|, act, idx, true))
      || (exists act, idx: nat :: act in gi.es && !Matched(act, gp.es, false) && idx < |gp.vs| && e == CopyEdge(|gi.vs|, act, idx, false))
  {
    var mod := |gi.vs|;
    SharedEdgesHas(gp.es, gi.es, mod, e);
    ReplicateHas(mod, mod, Unmatched(gp.es, gi.es, true), true, e);
    ReplicateHas(mod, |gp.vs|, Unmatched(gi.es, gp.es, false), false, e);
  }

  /** The product's steps join product states. */
  lemma FoldWellFormed(gp: IfaGraph, gi: IfaGraph)
    requires WellFormed(gp) && WellFormed(gi)
    ensures WellFormed(Fold(gp, gi))
  {
    var m, n := |gp.vs|, |gi.vs|;
    ReplicateInRange(m, n, Unmatched(gp.es, gi.es, true), true);
    ReplicateInRange(m, n, Unmatched(gi.es, gp.es, false), false);
    forall e | e in Fold(gp, gi).es
      ensures e.src < m * n && e.dst < m * n
    {
      if e in SharedEdges(gp.es, gi.es, n) {
        SharedEdgesHas(gp.es, gi.es, n, e);
        var e1, e2 :| e1 in gp.es && e2 in gi.es && IsActionShared(e1.attr, e2.attr) == Shared && e == AddActShared(e1, e2, n);
        VertexIdInRange(m, n, e1.src, e2.src);
        VertexIdInRange(m, n, e1.dst, e2.dst);
      }
    }
  }

  /** The messages `isActionShared` prints, as the pairs of labels, in the
      order of the shared loop. */
  function Complaints(es1: seq<Edge<IfaAct>>, es2: seq<Edge<IfaAct>>): (r: seq<(string, string)>)
  {
    if |es1| == 0 then []
    else ComplaintsRow(es1[0], es2) + Complaints(es1[1..], es2)
  }

  function ComplaintsRow(act1: Edge<IfaAct>, es2: seq<Edge<IfaAct>>): seq<(string, string)>
  {
    if |es2| == 0 then []
    else
      (if IsActionShared(act1.attr, es2[0].attr) == Incompatible then [(act1.attr.text, es2[0].attr.text)] else [])
      + ComplaintsRow(act1, es2[1..])
  }

  /** A complaint names the labels of a same-named pair that does not
      synchronise, and every such pair is complained about. */
  lemma {:induction false} ComplaintsHas(es1: seq<Edge<IfaAct>>, es2: seq<Edge<IfaAct>>, c: (string, string))
    ensures c in Complaints(es1, es2) <==>
      exists e1, e2 :: e1 in es1 && e2 in es2 && e1.attr.name == e2.attr.name
        && !Sa.Polar(e1.attr.mode, e2.attr.mode) && c == (e1.attr.text, e2.attr.text)
  {
    if |es1| > 0 {
      ComplaintsRowHas(es1[0], es2, c);
      ComplaintsHas(es1[1..], es2, c);
      assert forall e1 :: e1 in es1 <==> e1 == es1[0] || e1 in es1[1..];
    }
  }

  lemma {:induction false} ComplaintsRowHas(act1: Edge<IfaAct>, es2: seq<Edge<IfaAct>>, c: (string, string))
    ensures c in ComplaintsRow(act1, es2) <==>
      exists e2 :: e2 in es2 && act1.attr.name == e2.attr.name
        && !Sa.Polar(act1.attr.mode, e2.attr.mode) && c == (act1.attr.text, e2.attr.text)
  {
    if |es2| > 0 {
      ComplaintsRowHas(act1, es2[1..], c);
      assert forall e2 :: e2 in es2 <==> e2 == es2[0] || e2 in es2[1..];
    }
  }

  // ---------------------------------------------------------------------------
  // Pruning (ifa.py:143-155)

  /** The states `ifaProd` deletes: those with no path from state 0
      (`adhesion(0, v) == 0`; state 0 itself is skipped and always kept). */
  ghost function Unreached(g: IfaGraph): set<nat>
  {
    set v: nat | v < |g.vs| && !Reachable(g.es, 0, v)
  }

  /** Every state can be reached from state 0. */
  ghost predicate Connected(g: IfaGraph)
  {
    forall w :: 0 <= w < |g.vs| ==> Reachable(g.es, 0, w)
  }

  /** One round of `ifaProd`: the product, pruned to what state 0 reaches. */
  function ProdStep(gp: IfaGraph, gi: IfaGraph): (r: IfaGraph)
    requires |gp.vs| > 0 && |gi.vs| > 0
    ensures |r.vs| > 0
    ensures r == DeleteVertices(Fold(gp, gi), Unreached(Fold(gp, gi)))
  {
    var g := Fold(gp, gi);
    var R := ReachFrom(g.es, 0);
    var del := set v | v in Below(|g.vs|) && v != 0 && v !in R;
    assert del == Unreached(g) by {
      forall v: nat
        ensures v in del <==> v in Unreached(g)
      {
        ReachFromExact(g.es, 0, v);
        if v == 0 {
          ReachableRefl(g.es, 0);
        }
      }
    }
    MulMonotone(|gi.vs|, 1, |gp.vs|);
    ReachableRefl(g.es, 0);
    assert Rank(del, 0) < |DeleteVertices(g, del).vs| by {
      RankMonotone(del, 0, |g.vs|);
    }
    DeleteVertices(g, del)
  }

  /** After pruning, state 0 is still state 0, the graph is well formed, and
      every state can be reached from it. */
  lemma ProdStepConnected(gp: IfaGraph, gi: IfaGraph)
    requires |gp.vs| > 0 && |gi.vs| > 0 && WellFormed(gp) && WellFormed(gi)
    ensures WellFormed(ProdStep(gp, gi)) && Connected(ProdStep(gp, gi))
  {
    var g := Fold(gp, gi);
    var del := Unreached(g);
    FoldWellFormed(gp, gi);
    DeleteVerticesRenumbers(g, del);
    MulMonotone(|gi.vs|, 1, |gp.vs|);
    DeleteUnreachedConnects(g, del, 0);
  }

  /** A step of the pruned product is a step of the product between two
      states that state 0 reaches, renumbered. */
  lemma ProdStepEdges(gp: IfaGraph, gi: IfaGraph, e: Edge<IfaAct>)
    requires |gp.vs| > 0 && |gi.vs| > 0
    ensures e in ProdStep(gp, gi).es <==>
      exists e0 :: e0 in Fold(gp, gi).es && e0.src !in Unreached(Fold(gp, gi)) && e0.dst !in Unreached(Fold(gp, gi))
        && e == Edge(Rank(Unreached(Fold(gp, gi)), e0.src), Rank(Unreached(Fold(gp, gi)), e0.dst), e0.attr)
  {
  }

  // ---------------------------------------------------------------------------
  // ifaProd

  /** The loop of `ifaProd` from the `i`-th description on. */
  function ProdFrom(g: IfaGraph, specs: seq<seq<string>>, i: nat): (r: IfaGraph)
    requires |g.vs| > 0 && i <= |specs|
    ensures |r.vs| > 0
    decreases |specs| - i
  {
    if i == |specs| then g
    else ProdFrom(ProdStep(g, JsonToGraph(specs[i])), specs, i + 1)
  }

  /** The loop keeps the product well formed, and it is connected from state
      0 once one round has run. */
  lemma {:induction false} ProdFromConnected(g: IfaGraph, specs: seq<seq<string>>, i: nat)
    requires |g.vs| > 0 && i <= |specs| && WellFormed(g)
    ensures WellFormed(ProdFrom(g, specs, i))
    ensures i < |specs| || Connected(g) ==> Connected(ProdFrom(g, specs, i))
    decreases |specs| - i
  {
    if i < |specs| {
      ProdStepConnected(g, JsonToGraph(specs[i]));
      ProdFromConnected(ProdStep(g, JsonToGraph(specs[i])), specs, i + 1);
    }
  }

  /** ifa.py `ifaProd`: the product of the automata of all descriptions, in
      order; with fewer than two descriptions there is no product to return. */
  function IfaProd(specs: seq<seq<string>>): (r: Result<IfaGraph, IfaError>)
    ensures r.Err? <==> |specs| < 2
    ensures r.Ok? ==> |r.value.vs| > 0
  {
    if |specs| < 2 then Err(UnboundProduct)
    else Ok(ProdFrom(JsonToGraph(specs[0]), specs, 1))
  }

  /** The product is well formed and every state of it can be reached from
      state 0. */
  lemma IfaProdConnected(specs: seq<seq<string>>)
    requires IfaProd(specs).Ok?
    ensures WellFormed(IfaProd(specs).value) && Connected(IfaProd(specs).value)
  {
    ProdFromConnected(JsonToGraph(specs[0]), specs, 1);
  }
}
