/** The blocking analysis of sia.py on top of `fold`: `preProgress` marks the
    end states of a factor, `markBlocking` is a depth-first pass over the
    product that reports, per subsystem, the reached states where that
    subsystem is stuck in a non-end state, and `checkSys` runs four passes and
    keeps only the states reachable from state 0. */
module SiaCheck {
  import opened Results
  import opened Graphs
  import opened Sia

  // ---------------------------------------------------------------------------
  // preProgress

  /** sia.py `preProgress`: each state stores its out-strength, is an end state
      exactly when that strength is 0, and starts out not blocking. */
  function PreProgress<V>(a: Automaton<V>): (r: Automaton<Local>)
    ensures r.name == a.name && r.g.es == a.g.es && |r.g.vs| == |a.g.vs|
  {
    Automaton(a.name, Graph(seq(|a.g.vs|, v requires 0 <= v < |a.g.vs| =>
      Local(Strength(a.g.es, v) == 0, false, Strength(a.g.es, v))), a.g.es))
  }

  /** With 0/1 weights a factor state is an end state exactly when every step
      leaving it is a may step, so it can stop there without refusing a must. */
  lemma PreProgressEnd<V>(a: Automaton<V>, v: nat)
    requires v < |a.g.vs|
    requires forall e :: e in a.g.es ==> e.attr.weight >= 0
    ensures !PreProgress(a).g.vs[v].block
    ensures PreProgress(a).g.vs[v].end <==> forall e :: e in a.g.es && e.src == v ==> e.attr.weight == 0
  {
    StrengthZeroIffOnlyMay(a.g.es, v);
  }

  // ---------------------------------------------------------------------------
  // State threaded through the passes

  /** One console line `printError(nameSub, stateSub, name, state)`: subsystem
      `sub` is stuck in its local state `local` while the product `product` is
      in state `state`. */
  datatype Report = Report(sub: string, local: nat, product: string, state: nat)

  /** The mutable state of the passes: the vertices whose `reach` is set, the
      `block` dictionary (one object shared by every vertex), the lines printed
      so far, and the first vertex whose local-state lookup raised. */
  datatype Pass = Pass(reach: set<nat>, block: map<string, bool>, reports: seq<Report>, fault: Option<nat>)

  /** `states[g_sys['name']]` at `v`, or None where Python raises: the vertex
      has no `states` (no edge touches it), the name is missing, or the index
      is not a state of the subsystem. */
  function LocalIndex(g: Graph<Composite, Act>, sys: Automaton<Local>, v: nat): (r: Option<nat>)
    requires v < |g.vs|
    ensures r.Some? ==> r.value < |sys.g.vs|
  {
    match g.vs[v].states
    case None => None
    case Some(st) =>
      if sys.name in st && st[sys.name] < |sys.g.vs| then Some(st[sys.name]) else None
  }

  /** Whether a pass follows `e`: a must pass skips weight-0 edges. */
  predicate Follows(must: bool, e: Edge<Act>)
  {
    !(must && e.attr.weight == 0)
  }

  /** The edges a pass follows, in id order. */
  function Followed(es: seq<Edge<Act>>, must: bool): (r: seq<Edge<Act>>)
    ensures forall e :: e in r <==> e in es && Follows(must, e)
  {
    if |es| == 0 then []
    else (if Follows(must, es[0]) then [es[0]] else []) + Followed(es[1..], must)
  }

  /** A may pass follows every edge. */
  lemma {:induction false} FollowedMay(es: seq<Edge<Act>>)
    ensures Followed(es, false) == es
  {
    if |es| > 0 {
      FollowedMay(es[1..]);
      assert es == [es[0]] + es[1..];
    }
  }

  /** The check at the end of `markBlocking(v)` (sia.py:92-98), given the
      `hasAction` its edges produced. */
  function Check(prod: Automaton<Composite>, sys: Automaton<Local>, must: bool, v: nat, has: bool, p: Pass): (q: Pass)
    requires v < |prod.g.vs| && sys.name in p.block
    ensures q.reach == p.reach && q.block.Keys == p.block.Keys
    ensures forall k :: k in p.block && k != sys.name ==> q.block[k] == p.block[k]
    ensures p.block[sys.name] ==> q.block[sys.name]
    ensures p.fault.Some? ==> q.fault == p.fault
    ensures q.fault.Some? && p.fault.None? ==> q.fault == Some(v) && LocalIndex(prod.g, sys, v).None?
    ensures |q.reports| >= |p.reports| && q.reports[..|p.reports|] == p.reports
    ensures forall k :: |p.reports| <= k < |q.reports| ==>
      ReportAt(prod, sys, v, q.reports[k]) && (Strength(prod.g.es, v) == 0 || !has)
    ensures q.block[sys.name] && !p.block[sys.name] ==> |q.reports| > |p.reports|
    ensures Stuck(prod, sys, v) ==> q.block[sys.name]
    ensures must && Stuck(prod, sys, v) ==> Report(sys.name, LocalIndex(prod.g, sys, v).value, prod.name, v) in q.reports
    ensures must && Strength(prod.g.es, v) == 0 && LocalIndex(prod.g, sys, v).None? ==> q.fault.Some?
    ensures !has && LocalIndex(prod.g, sys, v).Some? && !sys.g.vs[LocalIndex(prod.g, sys, v).value].end ==> q.block[sys.name]
    ensures must && !has && LocalIndex(prod.g, sys, v).Some? && !sys.g.vs[LocalIndex(prod.g, sys, v).value].end ==>
      Report(sys.name, LocalIndex(prod.g, sys, v).value, prod.name, v) in q.reports
  {
    if (must || !p.block[sys.name]) && (Strength(prod.g.es, v) == 0 || !has) then
      match LocalIndex(prod.g, sys, v)
      case None => p.(fault := if p.fault.None? then Some(v) else p.fault)
      case Some(i) =>
        if sys.g.vs[i].end then p
        else p.(block := p.block[sys.name := true], reports := p.reports + [Report(sys.name, i, prod.name, v)])
    else p
  }

  /** At product state `v` nothing at all can happen (out-strength 0) while the
      subsystem's own local state is not an end state. */
  predicate Stuck(prod: Automaton<Composite>, sys: Automaton<Local>, v: nat)
    requires v < |prod.g.vs|
  {
    && Strength(prod.g.es, v) == 0
    && LocalIndex(prod.g, sys, v).Some?
    && !sys.g.vs[LocalIndex(prod.g, sys, v).value].end
  }

  /** `rep` is a line about state `v` whose subsystem state is not an end state. */
  ghost predicate ReportAt(prod: Automaton<Composite>, sys: Automaton<Local>, v: nat, rep: Report)
  {
    && v < |prod.g.vs|
    && LocalIndex(prod.g, sys, v) == Some(rep.local)
    && !sys.g.vs[rep.local].end
    && rep == Report(sys.name, rep.local, prod.name, v)
  }

  /** Nothing leaves state `v` (out-strength 0), or no weight-1 edge out of
      `v` carries an action of the subsystem: the second half of the print
      condition, whichever edges the pass follows. */
  ghost predicate Idle(prod: Automaton<Composite>, sys: Automaton<Local>, v: nat)
  {
    || Strength(prod.g.es, v) == 0
    || forall e :: e in prod.g.es && e.src == v && Follows(true, e) ==> sys.name !in e.attr.sys
  }

  /** `rep` is a line about state `v` that `markBlocking` may print: the
      subsystem's state is not an end state and `v` is idle for it. */
  ghost predicate Reported(prod: Automaton<Composite>, sys: Automaton<Local>, v: nat, rep: Report)
  {
    ReportAt(prod, sys, v, rep) && Idle(prod, sys, v)
  }

  // ---------------------------------------------------------------------------
  // markBlocking

  /** What one call of `markBlocking` (or a tail of its edge loop) does to the
      pass state `p`, giving `q`: it only adds reached vertices, changes no
      flag but the subsystem's and that one only from False to True, keeps the
      printed lines and the first fault, and everything it adds concerns a
      vertex it newly reached. The last three conjuncts are its duties: every
      newly reached stuck state sets the flag (and, in a must pass, is
      printed, or raises when its local state cannot be looked up), and every
      followed edge out of a newly reached vertex leads to a reached vertex. */
  ghost predicate Grows(prod: Automaton<Composite>, sys: Automaton<Local>, must: bool, p: Pass, q: Pass)
  {
    var n := |prod.g.vs|;
    && p.reach <= q.reach <= Below(n)
    && sys.name in p.block && q.block.Keys == p.block.Keys
    && (forall k :: k in p.block && k != sys.name ==> q.block[k] == p.block[k])
    && (p.block[sys.name] ==> q.block[sys.name])
    && (q.block[sys.name] && !p.block[sys.name] ==> |q.reports| > |p.reports|)
    && (p.fault.Some? ==> q.fault == p.fault)
    && (q.fault.Some? && p.fault.None? ==>
          q.fault.value in q.reach - p.reach && q.fault.value < n && LocalIndex(prod.g, sys, q.fault.value).None?)
    && |q.reports| >= |p.reports| && q.reports[..|p.reports|] == p.reports
    && (forall k :: |p.reports| <= k < |q.reports| ==>
          q.reports[k].state in q.reach - p.reach && Reported(prod, sys, q.reports[k].state, q.reports[k]))
    && (forall u: nat :: u < n && u in q.reach - p.reach && Stuck(prod, sys, u) ==> q.block[sys.name])
    && (forall u: nat :: must && u < n && u in q.reach - p.reach && Stuck(prod, sys, u) ==>
          Report(sys.name, LocalIndex(prod.g, sys, u).value, prod.name, u) in q.reports)
    && (forall u: nat :: must && u < n && u in q.reach - p.reach && Strength(prod.g.es, u) == 0 ==>
          LocalIndex(prod.g, sys, u).Some? || q.fault.Some?)
    && (forall e :: e in prod.g.es && Follows(must, e) && e.src in q.reach - p.reach ==> e.dst in q.reach)
  }

  lemma GrowsRefl(prod: Automaton<Composite>, sys: Automaton<Local>, must: bool, p: Pass)
    requires sys.name in p.block && p.reach <= Below(|prod.g.vs|)
    ensures Grows(prod, sys, must, p, p)
  {
    assert p.reports[..|p.reports|] == p.reports;
  }

  lemma GrowsTrans(prod: Automaton<Composite>, sys: Automaton<Local>, must: bool, p: Pass, q: Pass, r: Pass)
    requires Grows(prod, sys, must, p, q) && Grows(prod, sys, must, q, r)
    ensures Grows(prod, sys, must, p, r)
  {
    var a, b, c := p.reports, q.reports, r.reports;
    assert c[..|a|] == c[..|b|][..|a|];
    forall k | |a| <= k < |c|
      ensures c[k].state in r.reach - p.reach && Reported(prod, sys, c[k].state, c[k])
    {
      if k < |b| {
        assert c[k] == c[..|b|][k];
      }
    }
    forall x | x in b
      ensures x in c
    {
      var k :| 0 <= k < |b| && b[k] == x;
      assert c[..|b|][k] == x;
    }
  }

  /** Every vertex of `S` is reachable from the target of `e`, hence from its
      source. */
  lemma PrependAll(F: seq<Edge<Act>>, e: Edge<Act>, S: set<nat>)
    requires e in F
    requires forall u :: u in S ==> Reachable(F, e.dst, u)
    ensures forall u :: u in S ==> Reachable(F, e.src, u)
  {
    forall u | u in S
      ensures Reachable(F, e.src, u)
    {
      ReachablePrepend(F, e, u);
    }
  }

  /** sia.py `markBlocking(v, g, g_sys, must)`, with the pass state made
      explicit: returns `hasAction` and the state after the call. */
  function MarkBlocking(prod: Automaton<Composite>, sys: Automaton<Local>, must: bool, v: nat, p: Pass): (r: (bool, Pass))
    requires WellFormed(prod.g) && v < |prod.g.vs| && p.reach <= Below(|prod.g.vs|) && sys.name in p.block
    ensures Grows(prod, sys, must, p, r.1)
    ensures v in r.1.reach
    ensures v in p.reach ==> r == (false, p)
    ensures forall u :: u in r.1.reach - p.reach ==> Reachable(Followed(prod.g.es, must), v, u)
    ensures r.0 ==> ActsIn(prod, sys, must, r.1.reach - p.reach)
    ensures forall e :: v !in p.reach && e in prod.g.es && e.src == v && Follows(must, e) && sys.name in e.attr.sys ==> r.0
    decreases Below(|prod.g.vs|) - p.reach, 0, 0
  {
    if v in p.reach then
      GrowsRefl(prod, sys, must, p);
      (false, p)
    else
      var p1 := p.(reach := p.reach + {v});
      var inc := IncidentOut(prod.g, v);
      assert forall k :: 0 <= k < |inc| ==> inc[k] in inc;
      var res := MarkEdges(prod, sys, must, v, inc, 0, false, p1);
      var p3 := Check(prod, sys, must, v, res.0, res.1);
      VisitVertex(prod, sys, must, v, inc, p, res, p3);
      (res.0, p3)
  }

  /** The visit of a vertex `v` not reached before: the contract of the loop
      over its out-edges (`res`) and the check (`p3`) give the contract of
      `markBlocking(v)`. */
  lemma VisitVertex(prod: Automaton<Composite>, sys: Automaton<Local>, must: bool, v: nat, inc: seq<nat>,
                    p: Pass, res: (bool, Pass), p3: Pass)
    requires WellFormed(prod.g) && v < |prod.g.vs| && p.reach <= Below(|prod.g.vs|) && sys.name in p.block
    requires v !in p.reach
    requires forall j: nat :: j in inc <==> j < |prod.g.es| && prod.g.es[j].src == v
    requires forall k :: 0 <= k < |inc| ==> inc[k] < |prod.g.es| && prod.g.es[inc[k]].src == v
    requires LoopDone(prod, sys, must, v, inc, 0, false, p.(reach := p.reach + {v}), res)
    requires p3 == Check(prod, sys, must, v, res.0, res.1)
    ensures Grows(prod, sys, must, p, p3)
    ensures v in p3.reach
    ensures forall u :: u in p3.reach - p.reach ==> Reachable(Followed(prod.g.es, must), v, u)
    ensures res.0 ==> ActsIn(prod, sys, must, p3.reach - p.reach)
    ensures forall e :: e in prod.g.es && e.src == v && Follows(must, e) && sys.name in e.attr.sys ==> res.0
  {
    var p1 := p.(reach := p.reach + {v});
    FinishHas(prod, sys, must, v, inc, res.0);
    FinishVertex(prod, sys, must, v, inc, p, p1, res.0, res.1, p3);
    ActsInSub(prod, sys, must, (res.1.reach - p1.reach) + {v}, p3.reach - p.reach);
  }

  /** The loop `for e in g.es(g.incident(owner))` from position `i` on, with
      `has` the `hasAction` so far. */
  function MarkEdges(prod: Automaton<Composite>, sys: Automaton<Local>, must: bool, owner: nat,
                     inc: seq<nat>, i: nat, has: bool, p: Pass): (r: (bool, Pass))
    requires WellFormed(prod.g) && p.reach <= Below(|prod.g.vs|) && sys.name in p.block
    requires owner < |prod.g.vs| && owner in p.reach && i <= |inc|
    requires forall k :: 0 <= k < |inc| ==> inc[k] < |prod.g.es| && prod.g.es[inc[k]].src == owner
    ensures LoopDone(prod, sys, must, owner, inc, i, has, p, r)
    decreases Below(|prod.g.vs|) - p.reach, 1, |inc| - i
  {
    if i == |inc| then
      GrowsRefl(prod, sys, must, p);
      (has, p)
    else
      var e := prod.g.es[inc[i]];
      if !Follows(must, e) then
        var res := MarkEdges(prod, sys, must, owner, inc, i + 1, has, p);
        SkippedEdge(prod, sys, must, owner, inc, i, has, p, res);
        res
      else
        assert e in prod.g.es;
        var sub := MarkBlocking(prod, sys, must, e.dst, p);
        var res := MarkEdges(prod, sys, must, owner, inc, i + 1, sub.0 || has || sys.name in e.attr.sys, sub.1);
        FollowedEdge(prod, sys, must, owner, inc, i, has, p, sub, res);
        res
  }

  /** The contract of the edge loop from position `i` on, with `has` the
      `hasAction` so far and `r` what the loop returns: the pass state only
      grows, every followed edge from `i` on leads to a reached vertex, every
      newly reached vertex is reachable from `owner`, and `hasAction` is set
      exactly when an action of the subsystem was seen. */
  ghost predicate LoopDone(prod: Automaton<Composite>, sys: Automaton<Local>, must: bool, owner: nat,
                           inc: seq<nat>, i: nat, has: bool, p: Pass, r: (bool, Pass))
    requires forall k :: 0 <= k < |inc| ==> inc[k] < |prod.g.es|
  {
    && Grows(prod, sys, must, p, r.1)
    && (forall k :: i <= k < |inc| && Follows(must, prod.g.es[inc[k]]) ==> prod.g.es[inc[k]].dst in r.1.reach)
    && (forall u :: u in r.1.reach - p.reach ==> Reachable(Followed(prod.g.es, must), owner, u))
    && (has ==> r.0)
    && (r.0 ==> has || ActsIn(prod, sys, must, (r.1.reach - p.reach) + {owner}))
    && (forall k :: i <= k < |inc| && Follows(must, prod.g.es[inc[k]]) && sys.name in prod.g.es[inc[k]].attr.sys ==> r.0)
  }

  /** An edge the pass does not follow changes nothing. */
  lemma SkippedEdge(prod: Automaton<Composite>, sys: Automaton<Local>, must: bool, owner: nat,
                    inc: seq<nat>, i: nat, has: bool, p: Pass, res: (bool, Pass))
    requires i < |inc| && forall k :: 0 <= k < |inc| ==> inc[k] < |prod.g.es|
    requires !Follows(must, prod.g.es[inc[i]])
    requires LoopDone(prod, sys, must, owner, inc, i + 1, has, p, res)
    ensures LoopDone(prod, sys, must, owner, inc, i, has, p, res)
  {
  }

  /** The step of `MarkEdges` over a followed edge: the contracts of the
      depth-first call on its target (`sub`) and of the rest of the loop
      (`res`) give the loop's contract from position `i`. */
  lemma FollowedEdge(prod: Automaton<Composite>, sys: Automaton<Local>, must: bool, owner: nat,
                     inc: seq<nat>, i: nat, has: bool, p: Pass, sub: (bool, Pass), res: (bool, Pass))
    requires WellFormed(prod.g) && owner < |prod.g.vs| && i < |inc|
    requires forall k :: 0 <= k < |inc| ==> inc[k] < |prod.g.es| && prod.g.es[inc[k]].src == owner
    requires Follows(must, prod.g.es[inc[i]])
    requires Grows(prod, sys, must, p, sub.1) && prod.g.es[inc[i]].dst in sub.1.reach
    requires forall u :: u in sub.1.reach - p.reach ==> Reachable(Followed(prod.g.es, must), prod.g.es[inc[i]].dst, u)
    requires sub.0 ==> ActsIn(prod, sys, must, sub.1.reach - p.reach)
    requires LoopDone(prod, sys, must, owner, inc, i + 1, sub.0 || has || sys.name in prod.g.es[inc[i]].attr.sys, sub.1, res)
    ensures LoopDone(prod, sys, must, owner, inc, i, has, p, res)
  {
    var e := prod.g.es[inc[i]];
    assert e in prod.g.es;
    GrowsTrans(prod, sys, must, p, sub.1, res.1);
    PrependAll(Followed(prod.g.es, must), e, sub.1.reach - p.reach);
    ActsInSub(prod, sys, must, sub.1.reach - p.reach, (res.1.reach - p.reach) + {owner});
    ActsInSub(prod, sys, must, (res.1.reach - sub.1.reach) + {owner}, (res.1.reach - p.reach) + {owner});
    ActsInSub(prod, sys, must, {owner}, (res.1.reach - p.reach) + {owner});
  }

  /** Some followed edge out of a vertex of `S` carries an action of the
      subsystem (`g_sys['name'] in e['sys']`). */
  ghost predicate ActsIn(prod: Automaton<Composite>, sys: Automaton<Local>, must: bool, S: set<nat>)
  {
    exists e :: e in prod.g.es && Follows(must, e) && e.src in S && sys.name in e.attr.sys
  }

  lemma ActsInSub(prod: Automaton<Composite>, sys: Automaton<Local>, must: bool, S: set<nat>, T: set<nat>)
    requires S <= T
    ensures ActsIn(prod, sys, must, S) ==> ActsIn(prod, sys, must, T)
  {
  }

  /** An action of the subsystem on a followed edge out of `v` itself makes
      `hasAction` true. */
  lemma FinishHas(prod: Automaton<Composite>, sys: Automaton<Local>, must: bool, v: nat, inc: seq<nat>, has: bool)
    requires forall k :: 0 <= k < |inc| ==> inc[k] < |prod.g.es|
    requires forall j: nat :: j < |prod.g.es| && prod.g.es[j].src == v ==> j in inc
    requires forall k :: 0 <= k < |inc| && Follows(must, prod.g.es[inc[k]]) && sys.name in prod.g.es[inc[k]].attr.sys ==> has
    ensures forall e :: e in prod.g.es && e.src == v && Follows(must, e) && sys.name in e.attr.sys ==> has
  {
    forall e | e in prod.g.es && e.src == v && Follows(must, e) && sys.name in e.attr.sys
      ensures has
    {
      var j :| 0 <= j < |prod.g.es| && prod.g.es[j] == e;
      var k :| 0 <= k < |inc| && inc[k] == j;
    }
  }

  /** The end of `markBlocking(v)`: `v` was marked (`p` to `p1`), its edges
      explored (`p1` to `p2`), and the check done (`p2` to `p3`). */
  lemma FinishVertex(prod: Automaton<Composite>, sys: Automaton<Local>, must: bool, v: nat, inc: seq<nat>,
                     p: Pass, p1: Pass, has: bool, p2: Pass, p3: Pass)
    requires WellFormed(prod.g) && v < |prod.g.vs| && p.reach <= Below(|prod.g.vs|) && sys.name in p.block
    requires v !in p.reach && p1 == p.(reach := p.reach + {v})
    requires forall k :: 0 <= k < |inc| ==> inc[k] < |prod.g.es| && prod.g.es[inc[k]].src == v
    requires forall j: nat :: j < |prod.g.es| && prod.g.es[j].src == v ==> j in inc
    requires Grows(prod, sys, must, p1, p2)
    requires forall k :: 0 <= k < |inc| && Follows(must, prod.g.es[inc[k]]) ==> prod.g.es[inc[k]].dst in p2.reach
    requires forall u :: u in p2.reach - p1.reach ==> Reachable(Followed(prod.g.es, must), v, u)
    requires forall e :: e in prod.g.es && e.src == v && Follows(must, e) && sys.name in e.attr.sys ==> has
    requires p3 == Check(prod, sys, must, v, has, p2)
    ensures Grows(prod, sys, must, p, p3)
    ensures forall u :: u in p3.reach - p.reach ==> Reachable(Followed(prod.g.es, must), v, u)
  {
    var es, n := prod.g.es, |prod.g.vs|;
    ReachableRefl(Followed(es, must), v);
    forall e | e in es && Follows(must, e) && e.src in p3.reach - p.reach
      ensures e.dst in p3.reach
    {
      if e.src == v {
        var j :| 0 <= j < |es| && es[j] == e;
        var k :| 0 <= k < |inc| && inc[k] == j;
      }
    }
    GrowsStep(prod, sys, must, v, has, p, p1, p2, p3);
  }

  lemma GrowsStep(prod: Automaton<Composite>, sys: Automaton<Local>, must: bool, v: nat, has: bool,
                  p: Pass, p1: Pass, p2: Pass, p3: Pass)
    requires WellFormed(prod.g) && v < |prod.g.vs| && p.reach <= Below(|prod.g.vs|) && sys.name in p.block
    requires v !in p.reach && p1 == p.(reach := p.reach + {v})
    requires Grows(prod, sys, must, p1, p2)
    requires forall e :: e in prod.g.es && e.src == v && Follows(must, e) && sys.name in e.attr.sys ==> has
    requires p3 == Check(prod, sys, must, v, has, p2)
    requires forall e :: e in prod.g.es && Follows(must, e) && e.src in p3.reach - p.reach ==> e.dst in p3.reach
    ensures Grows(prod, sys, must, p, p3)
  {
    var a, b, c := p.reports, p2.reports, p3.reports;
    assert c[..|a|] == c[..|b|][..|a|];
    forall k | |a| <= k < |c|
      ensures c[k].state in p3.reach - p.reach && Reported(prod, sys, c[k].state, c[k])
    {
      if k < |b| {
        assert c[k] == c[..|b|][k];
      } else {
        assert ReportAt(prod, sys, v, c[k]) && (Strength(prod.g.es, v) == 0 || !has);
        assert forall e :: Follows(true, e) ==> Follows(must, e);
      }
    }
    forall x | x in b
      ensures x in c
    {
      var k :| 0 <= k < |b| && b[k] == x;
      assert c[..|b|][k] == x;
    }
  }

  // ---------------------------------------------------------------------------
  // markBlockingMust / markBlockingMay and checkSys

  /** sia.py `markBlockingMust` / `markBlockingMay`: clear every `reach` flag,
      then run one pass from `v`; afterwards `reach` holds exactly the states
      `v` reaches along the edges the pass follows. */
  function MarkPass(prod: Automaton<Composite>, sys: Automaton<Local>, must: bool, v: nat, p: Pass): (q: Pass)
    requires WellFormed(prod.g) && v < |prod.g.vs| && sys.name in p.block
    ensures forall u :: u in q.reach <==> Reachable(Followed(prod.g.es, must), v, u)
    ensures Grows(prod, sys, must, p.(reach := {}), q)
  {
    var r := MarkBlocking(prod, sys, must, v, p.(reach := {}));
    ReachExact(prod, must, v, r.1.reach);
    r.1
  }

  lemma ReachExact(prod: Automaton<Composite>, must: bool, v: nat, R: set<nat>)
    requires v in R
    requires forall e :: e in prod.g.es && Follows(must, e) && e.src in R ==> e.dst in R
    requires forall u :: u in R ==> Reachable(Followed(prod.g.es, must), v, u)
    ensures forall u :: u in R <==> Reachable(Followed(prod.g.es, must), v, u)
  {
    var F := Followed(prod.g.es, must);
    assert Closed(F, R);
    forall u | Reachable(F, v, u)
      ensures u in R
    {
      ClosedHoldsReachable(F, R, v, u);
    }
  }

  /** igraph rejects `delete_vertices` on nothing to fail: the errors
      `checkSys` can raise instead of returning. */
  datatype SiaError =
    | EmptyProduct             // `g.vs[0]` on a product without states
    | MissingLocalState(state: nat)  // `sSubsys[...]` or `g_sys.vs[...]` raised at this state

  /** The vertex attributes left on the returned graph. */
  datatype Kept = Kept(states: Option<map<string, nat>>, strength: int)

  /** What `checkSys` produces: the pruned product and the lines printed. */
  datatype Checked = Checked(prod: Automaton<Kept>, reports: seq<Report>)

  /** The product with the attributes `checkSys` leaves on it. */
  function Labelled(prod: Automaton<Composite>): (r: Automaton<Kept>)
    ensures r.name == prod.name && r.g.es == prod.g.es && |r.g.vs| == |prod.g.vs|
    ensures forall v :: 0 <= v < |r.g.vs| ==> r.g.vs[v].states == prod.g.vs[v].states
  {
    Automaton(prod.name, Graph(seq(|prod.g.vs|, v requires 0 <= v < |prod.g.vs| =>
      Kept(prod.g.vs[v].states, Strength(prod.g.es, v))), prod.g.es))
  }

  /** The states of the product with no path from state 0. */
  ghost function Unreached(es: seq<Edge<Act>>, n: nat): set<nat>
  {
    set v: nat | v < n && !Reachable(es, 0, v)
  }

  lemma UnreachedIs(es: seq<Edge<Act>>, n: nat, R: set<nat>)
    requires forall u :: u in R <==> Reachable(es, 0, u)
    ensures Below(n) - R == Unreached(es, n)
  {
  }

  /** Every line concerns a state reachable from 0 where one of the two
      subsystems sits in a non-end local state. */
  ghost predicate ReportsSound(prod: Automaton<Composite>, s1: Automaton<Local>, s2: Automaton<Local>, reports: seq<Report>)
  {
    forall k :: 0 <= k < |reports| ==>
      && reports[k].state < |prod.g.vs|
      && Reachable(prod.g.es, 0, reports[k].state)
      && (Reported(prod, s1, reports[k].state, reports[k]) || Reported(prod, s2, reports[k].state, reports[k]))
  }

  /** Every state reachable from 0 along must edges where `sys` is stuck is
      printed. */
  ghost predicate ReportsComplete(prod: Automaton<Composite>, sys: Automaton<Local>, reports: seq<Report>)
  {
    forall u: nat :: u < |prod.g.vs| && Reachable(Followed(prod.g.es, true), 0, u) && Stuck(prod, sys, u) ==>
      Report(sys.name, LocalIndex(prod.g, sys, u).value, prod.name, u) in reports
  }

  /** When `sys` is stuck at some state reachable from 0, along any edges, the
      shared `block` dictionary flags it as blocking. */
  ghost predicate FlaggedStuck(prod: Automaton<Composite>, sys: Automaton<Local>, q: Pass)
  {
    && sys.name in q.block
    && ((exists u: nat :: u < |prod.g.vs| && Reachable(prod.g.es, 0, u) && Stuck(prod, sys, u)) ==> q.block[sys.name])
  }

  /** The four passes of sia.py:123-127 from state 0, sharing one `block`
      dictionary that starts with both subsystems unblocked. */
  function FourPasses(prod: Automaton<Composite>, s1: Automaton<Local>, s2: Automaton<Local>): (q: Pass)
    requires WellFormed(prod.g) && 0 < |prod.g.vs|
    ensures forall u :: u in q.reach <==> Reachable(prod.g.es, 0, u)
    ensures ReportsSound(prod, s1, s2, q.reports)
    ensures q.fault.None? ==> ReportsComplete(prod, s1, q.reports) && ReportsComplete(prod, s2, q.reports)
    ensures q.fault.Some? ==>
      var u := q.fault.value;
      u < |prod.g.vs| && Reachable(prod.g.es, 0, u) && (LocalIndex(prod.g, s1, u).None? || LocalIndex(prod.g, s2, u).None?)
    ensures FlaggedStuck(prod, s1, q) && FlaggedStuck(prod, s2, q)
  {
    var q0 := Pass({}, map[s1.name := false][s2.name := false], [], None);
    var q1 := MarkPass(prod, s1, true, 0, q0);
    var q2 := MarkPass(prod, s1, false, 0, q1);
    var q3 := MarkPass(prod, s2, true, 0, q2);
    var q4 := MarkPass(prod, s2, false, 0, q3);
    CheckSysFacts(prod, s1, s2, q0, q1, q2, q3, q4);
    FollowedMay(prod.g.es);
    q4
  }

  /** sia.py `checkSys`: fold, mark end states of both factors, run the four
      passes, and delete the states the last pass did not reach. */
  function CheckSys<V>(a1: Automaton<V>, a2: Automaton<V>, shared: seq<string>): (r: Result<Checked, SiaError>)
    requires WellFormed(a1.g) && WellFormed(a2.g)
    ensures r == Err(EmptyProduct) <==> |a1.g.vs| * |a2.g.vs| == 0
    ensures r.Ok? ==> r.value.prod == Automaton(a1.name + a2.name,
      DeleteVertices(Labelled(Fold(a1, a2, shared)).g, Unreached(Fold(a1, a2, shared).g.es, |a1.g.vs| * |a2.g.vs|)))
    ensures r.Ok? ==> ReportsSound(Fold(a1, a2, shared), PreProgress(a1), PreProgress(a2), r.value.reports)
    ensures r.Ok? ==> ReportsComplete(Fold(a1, a2, shared), PreProgress(a1), r.value.reports)
    ensures r.Ok? ==> ReportsComplete(Fold(a1, a2, shared), PreProgress(a2), r.value.reports)
    ensures r.Err? && r.error.MissingLocalState? ==>
      var u := r.error.state;
      && u < |a1.g.vs| * |a2.g.vs| && Reachable(Fold(a1, a2, shared).g.es, 0, u)
      && (LocalIndex(Fold(a1, a2, shared).g, PreProgress(a1), u).None?
          || LocalIndex(Fold(a1, a2, shared).g, PreProgress(a2), u).None?)
  {
    var m, n := |a1.g.vs|, |a2.g.vs|;
    if m * n == 0 then Err(EmptyProduct)
    else
      var prod := Fold(a1, a2, shared);
      var q := FourPasses(prod, PreProgress(a1), PreProgress(a2));
      if q.fault.Some? then Err(MissingLocalState(q.fault.value))
      else
        var del := Below(m * n) - q.reach;
        UnreachedIs(prod.g.es, m * n, q.reach);
        Ok(Checked(Automaton(prod.name, DeleteVertices(Labelled(prod).g, del)), q.reports))
  }

  /** A pass keeps every earlier line and adds only sound ones. */
  lemma PassReports(prod: Automaton<Composite>, s1: Automaton<Local>, s2: Automaton<Local>,
                    sys: Automaton<Local>, must: bool, p: Pass, q: Pass)
    requires sys == s1 || sys == s2
    requires Grows(prod, sys, must, p.(reach := {}), q)
    requires forall u :: u in q.reach <==> Reachable(Followed(prod.g.es, must), 0, u)
    requires ReportsSound(prod, s1, s2, p.reports)
    ensures ReportsSound(prod, s1, s2, q.reports)
    ensures forall x :: x in p.reports ==> x in q.reports
    ensures p.fault.None? && q.fault.Some? ==>
      q.fault.value < |prod.g.vs| && Reachable(prod.g.es, 0, q.fault.value) && LocalIndex(prod.g, sys, q.fault.value).None?
  {
    var a, b := p.reports, q.reports;
    forall k | 0 <= k < |b|
      ensures b[k].state < |prod.g.vs| && Reachable(prod.g.es, 0, b[k].state)
      ensures Reported(prod, s1, b[k].state, b[k]) || Reported(prod, s2, b[k].state, b[k])
    {
      if k < |a| {
        assert b[k] == b[..|a|][k];
      } else {
        ReachableSubset(Followed(prod.g.es, must), prod.g.es, 0, b[k].state);
      }
    }
    forall x | x in a
      ensures x in b
    {
      var k :| 0 <= k < |a| && a[k] == x;
      assert b[..|a|][k] == x;
    }
    if p.fault.None? && q.fault.Some? {
      ReachableSubset(Followed(prod.g.es, must), prod.g.es, 0, q.fault.value);
    }
  }

  /** A must pass from state 0 prints every stuck state it reaches. */
  lemma PassComplete(prod: Automaton<Composite>, sys: Automaton<Local>, p: Pass, q: Pass)
    requires Grows(prod, sys, true, p.(reach := {}), q)
    requires forall u :: u in q.reach <==> Reachable(Followed(prod.g.es, true), 0, u)
    ensures ReportsComplete(prod, sys, q.reports)
  {
  }

  /** Completeness survives adding lines. */
  lemma CompleteKept(prod: Automaton<Composite>, sys: Automaton<Local>, a: seq<Report>, b: seq<Report>)
    requires ReportsComplete(prod, sys, a)
    requires forall x :: x in a ==> x in b
    ensures ReportsComplete(prod, sys, b)
  {
  }

  /** A pass of `FourPasses`: it grows the state it was given, with `reach`
      cleared, to exactly what the pass follows from state 0. */
  ghost predicate PassDone(prod: Automaton<Composite>, sys: Automaton<Local>, must: bool, p: Pass, q: Pass)
  {
    && Grows(prod, sys, must, p.(reach := {}), q)
    && (forall u :: u in q.reach <==> Reachable(Followed(prod.g.es, must), 0, u))
  }

  lemma CheckSysFacts(prod: Automaton<Composite>, s1: Automaton<Local>, s2: Automaton<Local>,
                      q0: Pass, q1: Pass, q2: Pass, q3: Pass, q4: Pass)
    requires WellFormed(prod.g) && 0 < |prod.g.vs|
    requires q0.reports == [] && q0.fault.None?
    requires PassDone(prod, s1, true, q0, q1) && PassDone(prod, s1, false, q1, q2)
    requires PassDone(prod, s2, true, q2, q3) && PassDone(prod, s2, false, q3, q4)
    ensures ReportsSound(prod, s1, s2, q4.reports)
    ensures q4.fault.None? ==> ReportsComplete(prod, s1, q4.reports) && ReportsComplete(prod, s2, q4.reports)
    ensures q4.fault.Some? ==>
      var u := q4.fault.value;
      u < |prod.g.vs| && Reachable(prod.g.es, 0, u) && (LocalIndex(prod.g, s1, u).None? || LocalIndex(prod.g, s2, u).None?)
    ensures FlaggedStuck(prod, s1, q4) && FlaggedStuck(prod, s2, q4)
  {
    FollowedMay(prod.g.es);
    assert FlaggedStuck(prod, s1, q2);
    assert FlaggedStuck(prod, s1, q4) by {
      assert q2.block[s1.name] ==> q3.block[s1.name];
      assert q3.block[s1.name] ==> q4.block[s1.name];
    }
    PassReports(prod, s1, s2, s1, true, q0, q1);
    PassReports(prod, s1, s2, s1, false, q1, q2);
    PassReports(prod, s1, s2, s2, true, q2, q3);
    PassReports(prod, s1, s2, s2, false, q3, q4);
    if q4.fault.None? {
      PassComplete(prod, s1, q0, q1);
      CompleteKept(prod, s1, q1.reports, q4.reports);
      PassComplete(prod, s2, q2, q3);
      CompleteKept(prod, s2, q3.reports, q4.reports);
    }
  }
}
