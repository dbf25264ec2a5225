/** The `Automata` class of sa.py: the synchronous product `a * b` of two
    automata whose steps carry a name, a mode (`?` receive, `!` send, `;`
    internal) and a weight.  Complementary steps of the same name become one
    internal `eps` step of the product; a same-named pair that is neither
    complementary nor internal is an error; every other step is interleaved. */
module Sa {
  import opened Results
  import opened Graphs
  import opened ProductIds
  import opened Replication

  datatype SaAct = SaAct(name: string, mode: string, weight: int)

  /** Vertex attributes: `reach`, `init`, `end` and `dl` (deadlock). */
  datatype SaState = SaState(reach: bool, init: bool, end: bool, dl: bool)

  /** An automaton: the graph-level `name` and the graph. */
  datatype SaAutomaton = SaAutomaton(name: string, g: Graph<SaState, SaAct>)

  datatype SaError =
    | Incompatible(a: SaAct, b: SaAct)  // the ValueError of `_isActionShared`
    | NoInitialState                    // `vs.find(init=True)` finds nothing

  /** No element occurs twice. */
  predicate Distinct<T(==)>(s: seq<T>)
  {
    forall i, j :: 0 <= i < j < |s| ==> s[i] != s[j]
  }

  // ---------------------------------------------------------------------------
  // _isActionShared

  /** The modes of a send and a receive, in either order. */
  predicate Polar(m1: string, m2: string)
  {
    (m1 == "?" && m2 == "!") || (m1 == "!" && m2 == "?")
  }

  /** sa.py `_isActionShared`: two steps synchronise when they carry the same
      name with complementary modes; the same name with any other pair of
      modes, neither of them internal, raises. */
  function IsActionShared(a: SaAct, b: SaAct): (r: Result<bool, SaError>)
    ensures r == Ok(true) <==> a.name == b.name && Polar(a.mode, b.mode)
    ensures r.Err? <==> a.name == b.name && !Polar(a.mode, b.mode) && a.mode != ";" && b.mode != ";"
    ensures r.Err? ==> r.error == Incompatible(a, b)
  {
    if a.name == b.name then
      if Polar(a.mode, b.mode) then Ok(true)
      else if a.mode != ";" && b.mode != ";" then Err(Incompatible(a, b))
      else Ok(false)
    else Ok(false)
  }

  /** The classification does not depend on the order of the two steps (only
      the error message does), and an internal step never synchronises nor
      clashes. */
  lemma IsActionSharedSymmetric(a: SaAct, b: SaAct)
    ensures IsActionShared(a, b).Ok? <==> IsActionShared(b, a).Ok?
    ensures IsActionShared(a, b).Ok? ==> IsActionShared(a, b) == IsActionShared(b, a)
    ensures a.mode == ";" ==> IsActionShared(a, b) == Ok(false)
  {
  }

  /** A pair of steps the fold synchronises. */
  predicate Shares(a: SaAct, b: SaAct)
  {
    IsActionShared(a, b) == Ok(true)
  }

  /** No pair of steps of the two factors clashes. */
  ghost predicate NoClash(es1: seq<Edge<SaAct>>, es2: seq<Edge<SaAct>>)
  {
    forall e1, e2 :: e1 in es1 && e2 in es2 ==> IsActionShared(e1.attr, e2.attr).Ok?
  }

  /** `es2[j]` is the first step of `es2` that clashes with `a`. */
  ghost predicate FirstClashIn(a: SaAct, es2: seq<Edge<SaAct>>, j: int)
  {
    && 0 <= j < |es2|
    && IsActionShared(a, es2[j].attr).Err?
    && forall k :: 0 <= k < j ==> IsActionShared(a, es2[k].attr).Ok?
  }

  /** `(es1[i], es2[j])` is the first clashing pair in the order of the nested
      loops of sa.py: left steps outside, right steps inside. */
  ghost predicate FirstClash(es1: seq<Edge<SaAct>>, es2: seq<Edge<SaAct>>, i: int, j: int)
  {
    && 0 <= i < |es1|
    && FirstClashIn(es1[i].attr, es2, j)
    && forall k, e2 :: 0 <= k < i && e2 in es2 ==> IsActionShared(es1[k].attr, e2.attr).Ok?
  }

  lemma FirstClashInNext(a: SaAct, es2: seq<Edge<SaAct>>, j: int)
    requires |es2| > 0 && IsActionShared(a, es2[0].attr).Ok?
    requires FirstClashIn(a, es2[1..], j)
    ensures FirstClashIn(a, es2, j + 1)
  {
    assert es2[j + 1] == es2[1..][j];
    forall k | 0 < k < j + 1
      ensures IsActionShared(a, es2[k].attr).Ok?
    {
      assert es2[k] == es2[1..][k - 1];
    }
  }

  lemma FirstClashNext(es1: seq<Edge<SaAct>>, es2: seq<Edge<SaAct>>, i: int, j: int)
    requires |es1| > 0 && forall e2 :: e2 in es2 ==> IsActionShared(es1[0].attr, e2.attr).Ok?
    requires FirstClash(es1[1..], es2, i, j)
    ensures FirstClash(es1, es2, i + 1, j)
  {
    assert es1[i + 1] == es1[1..][i];
    forall k, e2 | 0 < k < i + 1 && e2 in es2
      ensures IsActionShared(es1[k].attr, e2.attr).Ok?
    {
      assert es1[k] == es1[1..][k - 1];
    }
  }

  // ---------------------------------------------------------------------------
  // _getSharedNames

  /** `x` is the name of a synchronising pair. */
  ghost predicate SharedName(es1: seq<Edge<SaAct>>, es2: seq<Edge<SaAct>>, x: string)
  {
    exists e1, e2 :: e1 in es1 && e2 in es2 && Shares(e1.attr, e2.attr) && x == e1.attr.name
  }

  /** The inner loop of `_getSharedNames` for one step `a` of the left factor. */
  function SharedNamesRow(a: SaAct, es2: seq<Edge<SaAct>>, names: seq<string>): (r: Result<seq<string>, SaError>)
    ensures r.Ok? <==> forall e2 :: e2 in es2 ==> IsActionShared(a, e2.attr).Ok?
    ensures r.Err? ==> exists j :: FirstClashIn(a, es2, j) && r.error == Incompatible(a, es2[j].attr)
    ensures r.Ok? && Distinct(names) ==> Distinct(r.value)
    ensures r.Ok? ==> forall x :: x in r.value <==>
      (x in names || (x == a.name && exists e2 :: e2 in es2 && Shares(a, e2.attr)))
  {
    if |es2| == 0 then Ok(names)
    else
      assert forall e2 :: e2 in es2 <==> e2 == es2[0] || e2 in es2[1..];
      match IsActionShared(a, es2[0].attr)
      case Err(c) =>
        assert FirstClashIn(a, es2, 0);
        Err(c)
      case Ok(b) =>
        var r := SharedNamesRow(a, es2[1..], if b && a.name !in names then names + [a.name] else names);
        assert r.Err? ==> exists j :: FirstClashIn(a, es2, j) && r.error == Incompatible(a, es2[j].attr) by {
          if r.Err? {
            var j :| FirstClashIn(a, es2[1..], j) && r.error == Incompatible(a, es2[1..][j].attr);
            FirstClashInNext(a, es2, j);
          }
        }
        r
  }

  /** The outer loop of `_getSharedNames`, from the step `es1[0]` on. */
  function SharedNamesFrom(es1: seq<Edge<SaAct>>, es2: seq<Edge<SaAct>>, names: seq<string>): (r: Result<seq<string>, SaError>)
    ensures r.Ok? <==> NoClash(es1, es2)
    ensures r.Err? ==> exists i, j :: FirstClash(es1, es2, i, j) && r.error == Incompatible(es1[i].attr, es2[j].attr)
    ensures r.Ok? && Distinct(names) ==> Distinct(r.value)
    ensures r.Ok? ==> forall x :: x in r.value <==> x in names || SharedName(es1, es2, x)
  {
    if |es1| == 0 then Ok(names)
    else
      assert forall e1 :: e1 in es1 <==> e1 == es1[0] || e1 in es1[1..];
      match SharedNamesRow(es1[0].attr, es2, names)
      case Err(c) =>
        assert exists j :: FirstClash(es1, es2, 0, j) && c == Incompatible(es1[0].attr, es2[j].attr);
        Err(c)
      case Ok(row) =>
        var r := SharedNamesFrom(es1[1..], es2, row);
        assert r.Err? ==> exists i, j :: FirstClash(es1, es2, i, j) && r.error == Incompatible(es1[i].attr, es2[j].attr) by {
          if r.Err? {
            var i, j :| FirstClash(es1[1..], es2, i, j) && r.error == Incompatible(es1[1..][i].attr, es2[j].attr);
            FirstClashNext(es1, es2, i, j);
          }
        }
        assert r.Ok? ==> forall x :: x in r.value <==> x in names || SharedName(es1, es2, x) by {
          if r.Ok? {
            forall x
              ensures x in r.value <==> x in names || SharedName(es1, es2, x)
            {
              if SharedName(es1, es2, x) {
                var e1, e2 :| e1 in es1 && e2 in es2 && Shares(e1.attr, e2.attr) && x == e1.attr.name;
                if e1 != es1[0] {
                  assert SharedName(es1[1..], es2, x);
                }
              }
              if SharedName(es1[1..], es2, x) {
                var e1, e2 :| e1 in es1[1..] && e2 in es2 && Shares(e1.attr, e2.attr) && x == e1.attr.name;
                assert e1 in es1;
              }
            }
          }
        }
        r
  }

  /** sa.py `_getSharedNames`: the names of the synchronising pairs, each
      once, in order of first appearance; raises on the first clash. */
  function GetSharedNames(es1: seq<Edge<SaAct>>, es2: seq<Edge<SaAct>>): (r: Result<seq<string>, SaError>)
    ensures r.Ok? <==> NoClash(es1, es2)
    ensures r.Err? ==> exists i, j :: FirstClash(es1, es2, i, j) && r.error == Incompatible(es1[i].attr, es2[j].attr)
    ensures r.Ok? ==> Distinct(r.value)
    ensures r.Ok? ==> forall x :: x in r.value <==> SharedName(es1, es2, x)
  {
    SharedNamesFrom(es1, es2, [])
  }

  // ---------------------------------------------------------------------------
  // _foldPreprocess

  /** Both components of product state `v` are initial states. */
  function InitPair(g1: Graph<SaState, SaAct>, g2: Graph<SaState, SaAct>, v: nat): bool
    requires v < |g1.vs| * |g2.vs|
  {
    VertexIdOnto(|g1.vs|, |g2.vs|, v);
    g1.vs[v / |g2.vs|].init && g2.vs[v % |g2.vs|].init
  }

  /** sa.py `_foldPreprocess`: `|g1| * |g2|` states without edges, all reached,
      none initial but the pairs of initial states; `mod = |g2|`. */
  function FoldPreprocess(g1: Graph<SaState, SaAct>, g2: Graph<SaState, SaAct>): (r: Graph<SaState, SaAct>)
    ensures |r.vs| == |g1.vs| * |g2.vs| && r.es == []
    ensures forall v :: 0 <= v < |r.vs| ==> r.vs[v].reach && !r.vs[v].end && !r.vs[v].dl
  {
    var N := |g1.vs| * |g2.vs|;
    Graph(seq(N, v requires 0 <= v < N => SaState(true, InitPair(g1, g2, v), false, false)), [])
  }

  /** The product state of the pair (i, j) is initial exactly when both i and
      j are. */
  lemma FoldPreprocessInit(g1: Graph<SaState, SaAct>, g2: Graph<SaState, SaAct>, i: nat, j: nat)
    requires i < |g1.vs| && j < |g2.vs|
    ensures VertexId(|g2.vs|, i, j) < |FoldPreprocess(g1, g2).vs|
    ensures FoldPreprocess(g1, g2).vs[VertexId(|g2.vs|, i, j)].init <==> g1.vs[i].init && g2.vs[j].init
  {
    VertexIdInRange(|g1.vs|, |g2.vs|, i, j);
    VertexIdDecode(|g2.vs|, i, j);
  }

  // ---------------------------------------------------------------------------
  // _fold

  /** `_addEpsilon`: the attributes of an internal handshake step. */
  const Eps := SaAct("eps", ";", 0)

  /** The handshake step of the pair (e1, e2). */
  function EpsEdge(n: nat, e1: Edge<SaAct>, e2: Edge<SaAct>): Edge<SaAct>
  {
    Edge(VertexId(n, e1.src, e2.src), VertexId(n, e1.dst, e2.dst), Eps)
  }

  /** The handshakes of step `e1` with the steps of `es2`, in order; the first
      clash raises. */
  function EpsRow(n: nat, e1: Edge<SaAct>, es2: seq<Edge<SaAct>>): (r: Result<seq<Edge<SaAct>>, SaError>)
    ensures r.Ok? <==> forall e2 :: e2 in es2 ==> IsActionShared(e1.attr, e2.attr).Ok?
    ensures r.Err? ==> exists j :: FirstClashIn(e1.attr, es2, j) && r.error == Incompatible(e1.attr, es2[j].attr)
  {
    if |es2| == 0 then Ok([])
    else
      assert forall e2 :: e2 in es2 <==> e2 == es2[0] || e2 in es2[1..];
      match IsActionShared(e1.attr, es2[0].attr)
      case Err(c) =>
        assert FirstClashIn(e1.attr, es2, 0);
        Err(c)
      case Ok(b) =>
        match EpsRow(n, e1, es2[1..])
        case Err(c) =>
          assert exists j :: FirstClashIn(e1.attr, es2, j) && c == Incompatible(e1.attr, es2[j].attr) by {
            var j :| FirstClashIn(e1.attr, es2[1..], j) && c == Incompatible(e1.attr, es2[1..][j].attr);
            FirstClashInNext(e1.attr, es2, j);
          }
          Err(c)
        case Ok(rest) => Ok((if b then [EpsEdge(n, e1, es2[0])] else []) + rest)
  }

  lemma {:induction false} EpsRowHas(n: nat, e1: Edge<SaAct>, es2: seq<Edge<SaAct>>, e: Edge<SaAct>)
    requires EpsRow(n, e1, es2).Ok?
    ensures e in EpsRow(n, e1, es2).value <==> exists e2 :: e2 in es2 && Shares(e1.attr, e2.attr) && e == EpsEdge(n, e1, e2)
  {
    if |es2| > 0 {
      EpsRowHas(n, e1, es2[1..], e);
      assert forall e2 :: e2 in es2 <==> e2 == es2[0] || e2 in es2[1..];
    }
  }

  /** The first loop of `_fold` (sa.py:52-59): one `eps` step per synchronising
      pair, row by row. */
  function EpsEdges(n: nat, es1: seq<Edge<SaAct>>, es2: seq<Edge<SaAct>>): (r: Result<seq<Edge<SaAct>>, SaError>)
    ensures r.Ok? <==> NoClash(es1, es2)
    ensures r.Err? ==> exists i, j :: FirstClash(es1, es2, i, j) && r.error == Incompatible(es1[i].attr, es2[j].attr)
  {
    if |es1| == 0 then Ok([])
    else
      assert forall e1 :: e1 in es1 <==> e1 == es1[0] || e1 in es1[1..];
      match EpsRow(n, es1[0], es2)
      case Err(c) =>
        assert exists j :: FirstClash(es1, es2, 0, j) && c == Incompatible(es1[0].attr, es2[j].attr);
        Err(c)
      case Ok(row) =>
        match EpsEdges(n, es1[1..], es2)
        case Err(c) =>
          assert exists i, j :: FirstClash(es1, es2, i, j) && c == Incompatible(es1[i].attr, es2[j].attr) by {
            var i, j :| FirstClash(es1[1..], es2, i, j) && c == Incompatible(es1[1..][i].attr, es2[j].attr);
            FirstClashNext(es1, es2, i, j);
          }
          Err(c)
        case Ok(rest) => Ok(row + rest)
  }

  /** A handshake of the fold. */
  ghost predicate IsEps(es1: seq<Edge<SaAct>>, es2: seq<Edge<SaAct>>, n: nat, e: Edge<SaAct>)
  {
    exists e1, e2 :: e1 in es1 && e2 in es2 && Shares(e1.attr, e2.attr) && e == EpsEdge(n, e1, e2)
  }

  lemma {:induction false} EpsEdgesHas(n: nat, es1: seq<Edge<SaAct>>, es2: seq<Edge<SaAct>>, e: Edge<SaAct>)
    requires EpsEdges(n, es1, es2).Ok?
    ensures e in EpsEdges(n, es1, es2).value <==> IsEps(es1, es2, n, e)
  {
    if |es1| > 0 {
      EpsRowHas(n, es1[0], es2, e);
      EpsEdgesHas(n, es1[1..], es2, e);
      assert forall e1 :: e1 in es1 <==> e1 == es1[0] || e1 in es1[1..];
      if IsEps(es1, es2, n, e) {
        var e1, e2 :| e1 in es1 && e2 in es2 && Shares(e1.attr, e2.attr) && e == EpsEdge(n, e1, e2);
        if e1 != es1[0] {
          assert IsEps(es1[1..], es2, n, e);
        }
      }
    }
  }

  /** Number of synchronising pairs. */
  function SharedPairs(es1: seq<Edge<SaAct>>, es2: seq<Edge<SaAct>>): nat
  {
    if |es1| == 0 then 0
    else |Matches(es1[0].attr, es2)| + SharedPairs(es1[1..], es2)
  }

  /** The steps of `es2` that synchronise with `a`. */
  function Matches(a: SaAct, es2: seq<Edge<SaAct>>): seq<Edge<SaAct>>
  {
    if |es2| == 0 then []
    else (if Shares(a, es2[0].attr) then [es2[0]] else []) + Matches(a, es2[1..])
  }

  /** Exactly one handshake per synchronising pair. */
  lemma {:induction false} EpsEdgesCount(n: nat, es1: seq<Edge<SaAct>>, es2: seq<Edge<SaAct>>)
    requires EpsEdges(n, es1, es2).Ok?
    ensures |EpsEdges(n, es1, es2).value| == SharedPairs(es1, es2)
  {
    if |es1| > 0 {
      EpsRowCount(n, es1[0], es2);
      EpsEdgesCount(n, es1[1..], es2);
    }
  }

  lemma {:induction false} EpsRowCount(n: nat, e1: Edge<SaAct>, es2: seq<Edge<SaAct>>)
    requires EpsRow(n, e1, es2).Ok?
    ensures |EpsRow(n, e1, es2).value| == |Matches(e1.attr, es2)|
  {
    if |es2| > 0 {
      EpsRowCount(n, e1, es2[1..]);
    }
  }

  /** The left steps that synchronise with no right step: what
      `g1.delete_edges(e_del1)` leaves, in id order. */
  function Unmatched1(es1: seq<Edge<SaAct>>, es2: seq<Edge<SaAct>>): (r: seq<Edge<SaAct>>)
    ensures forall e :: e in r <==> e in es1 && forall e2 :: e2 in es2 ==> !Shares(e.attr, e2.attr)
  {
    if |es1| == 0 then []
    else
      (if forall e2 :: e2 in es2 ==> !Shares(es1[0].attr, e2.attr) then [es1[0]] else [])
      + Unmatched1(es1[1..], es2)
  }

  /** The right steps that synchronise with no left step (`g2.delete_edges(e_del2)`). */
  function Unmatched2(es1: seq<Edge<SaAct>>, es2: seq<Edge<SaAct>>): (r: seq<Edge<SaAct>>)
    ensures forall e :: e in r <==> e in es2 && forall e1 :: e1 in es1 ==> !Shares(e1.attr, e.attr)
  {
    if |es2| == 0 then []
    else
      (if forall e1 :: e1 in es1 ==> !Shares(e1.attr, es2[0].attr) then [es2[0]] else [])
      + Unmatched2(es1, es2[1..])
  }

  /** sa.py `_fold`: the edges it adds to the preprocessed product: the
      handshakes, then the unmatched left steps copied over every right state,
      then the unmatched right steps copied over every left state. */
  function FoldEdges(g1: Graph<SaState, SaAct>, g2: Graph<SaState, SaAct>): (r: Result<seq<Edge<SaAct>>, SaError>)
    ensures r.Ok? <==> NoClash(g1.es, g2.es)
    ensures r.Err? ==> exists i, j :: FirstClash(g1.es, g2.es, i, j) && r.error == Incompatible(g1.es[i].attr, g2.es[j].attr)
  {
    var m, n := |g1.vs|, |g2.vs|;
    match EpsEdges(n, g1.es, g2.es)
    case Err(c) => Err(c)
    case Ok(eps) =>
      Ok(eps + Replicate(n, n, Unmatched1(g1.es, g2.es), true) + Replicate(n, m, Unmatched2(g1.es, g2.es), false))
  }

  /** The edge set of `_fold`: a handshake of a synchronising pair, or a step
      that synchronises with nothing on the other side, copied with the other
      factor held in one of its states. */
  lemma FoldEdgesExact(g1: Graph<SaState, SaAct>, g2: Graph<SaState, SaAct>, e: Edge<SaAct>)
    requires FoldEdges(g1, g2).Ok?
    ensures e in FoldEdges(g1, g2).value <==>
      || IsEps(g1.es, g2.es, |g2.vs|, e)
      || (exists act, idx: nat :: act in Unmatched1(g1.es, g2.es) && idx < |g2.vs| && e == CopyEdge(|g2.vs|, act, idx, true))
      || (exists act, idx: nat :: act in Unmatched2(g1.es, g2.es) && idx < |g1.vs| && e == CopyEdge(|g2.vs|, act, idx, false))
  {
    var m, n := |g1.vs|, |g2.vs|;
    EpsEdgesHas(n, g1.es, g2.es, e);
    ReplicateHas(n, n, Unmatched1(g1.es, g2.es), true, e);
    ReplicateHas(n, m, Unmatched2(g1.es, g2.es), false, e);
  }

  /** One handshake per synchronising pair and one copy per (unmatched step,
      state of the other factor). */
  lemma FoldEdgesCount(g1: Graph<SaState, SaAct>, g2: Graph<SaState, SaAct>)
    requires FoldEdges(g1, g2).Ok?
    ensures |FoldEdges(g1, g2).value| == SharedPairs(g1.es, g2.es)
      + |Unmatched1(g1.es, g2.es)| * |g2.vs| + |Unmatched2(g1.es, g2.es)| * |g1.vs|
  {
    var m, n := |g1.vs|, |g2.vs|;
    EpsEdgesCount(n, g1.es, g2.es);
    ReplicateCount(n, n, Unmatched1(g1.es, g2.es), true);
    ReplicateCount(n, m, Unmatched2(g1.es, g2.es), false);
  }

  /** The fold only joins product states. */
  lemma FoldEdgesInRange(g1: Graph<SaState, SaAct>, g2: Graph<SaState, SaAct>)
    requires WellFormed(g1) && WellFormed(g2) && FoldEdges(g1, g2).Ok?
    ensures forall e :: e in FoldEdges(g1, g2).value ==> e.src < |g1.vs| * |g2.vs| && e.dst < |g1.vs| * |g2.vs|
  {
    var m, n := |g1.vs|, |g2.vs|;
    ReplicateInRange(m, n, Unmatched1(g1.es, g2.es), true);
    ReplicateInRange(m, n, Unmatched2(g1.es, g2.es), false);
    forall e | e in FoldEdges(g1, g2).value
      ensures e.src < m * n && e.dst < m * n
    {
      EpsEdgesHas(n, g1.es, g2.es, e);
      if IsEps(g1.es, g2.es, n, e) {
        var e1, e2 :| e1 in g1.es && e2 in g2.es && Shares(e1.attr, e2.attr) && e == EpsEdge(n, e1, e2);
        VertexIdInRange(m, n, e1.src, e2.src);
        VertexIdInRange(m, n, e1.dst, e2.dst);
      }
    }
  }

  // ---------------------------------------------------------------------------
  // _foldPostprocess

  /** `vs.find(init=True)`: the first initial state. */
  function FirstInit(vs: seq<SaState>): (r: Option<nat>)
    ensures r.Some? ==> r.value < |vs| && vs[r.value].init && forall u :: 0 <= u < r.value ==> !vs[u].init
    ensures r.None? ==> forall u :: 0 <= u < |vs| ==> !vs[u].init
  {
    if |vs| == 0 then None
    else if vs[0].init then Some(0)
    else match FirstInit(vs[1..])
      case None => None
      case Some(k) => Some(k + 1)
  }

  /** The states `_foldPostprocess` deletes when `s` is the first initial
      state: those already unreached, and the non-initial ones with no path
      from `s` (`adhesion(s, v) == 0`). */
  ghost function Pruned(g: Graph<SaState, SaAct>, s: nat): set<nat>
  {
    set v: nat | v < |g.vs| && (!g.vs[v].reach || (!g.vs[v].init && !Reachable(g.es, s, v)))
  }

  /** sa.py `_foldPostprocess`. */
  function FoldPostprocess(a: SaAutomaton): (r: Result<SaAutomaton, SaError>)
    ensures r.Err? <==> forall u :: 0 <= u < |a.g.vs| ==> !a.g.vs[u].init
    ensures r.Err? ==> r.error == NoInitialState
    ensures r.Ok? ==> r.value == SaAutomaton(a.name, DeleteVertices(a.g, Pruned(a.g, FirstInit(a.g.vs).value)))
  {
    match FirstInit(a.g.vs)
    case None => Err(NoInitialState)
    case Some(s) =>
      var R := ReachFrom(a.g.es, s);
      var del := set v | v in Below(|a.g.vs|) && (!a.g.vs[v].reach || (!a.g.vs[v].init && v !in R));
      assert del == Pruned(a.g, s) by {
        forall v: nat
          ensures v in del <==> v in Pruned(a.g, s)
        {
          ReachFromExact(a.g.es, s, v);
        }
      }
      Ok(SaAutomaton(a.name, DeleteVertices(a.g, del)))
  }

  /** Some initial state reaches every state that is not itself initial. */
  ghost predicate RootedAtInit(g: Graph<SaState, SaAct>)
  {
    exists s :: 0 <= s < |g.vs| && g.vs[s].init && forall w :: 0 <= w < |g.vs| ==> g.vs[w].init || Reachable(g.es, s, w)
  }

  /** When every state is marked reached, `_foldPostprocess` keeps the first
      initial state (renumbered), and that state reaches every surviving state
      that is not itself initial. */
  lemma PostprocessRooted(a: SaAutomaton)
    requires forall v :: 0 <= v < |a.g.vs| ==> a.g.vs[v].reach
    requires exists v :: 0 <= v < |a.g.vs| && a.g.vs[v].init
    ensures var s := FirstInit(a.g.vs).value; var g := FoldPostprocess(a).value.g;
      && Rank(Pruned(a.g, s), s) < |g.vs| && g.vs[Rank(Pruned(a.g, s), s)].init
      && forall w :: 0 <= w < |g.vs| ==> g.vs[w].init || Reachable(g.es, Rank(Pruned(a.g, s), s), w)
    ensures RootedAtInit(FoldPostprocess(a).value.g)
  {
    var s := FirstInit(a.g.vs).value;
    var del := Pruned(a.g, s);
    var g := DeleteVertices(a.g, del);
    ReachableRefl(a.g.es, s);
    forall w | 0 <= w < |g.vs| && !g.vs[w].init
      ensures Reachable(g.es, Rank(del, s), w)
    {
      RankOnto(del, |a.g.vs|, w);
      var v: nat :| v < |a.g.vs| && v !in del && Rank(del, v) == w;
      DeleteVerticesKeepsPaths(a.g, del, s, v);
    }
  }

  // ---------------------------------------------------------------------------
  // Automata.__mul__

  /** The product has an initial state exactly when both factors have one. */
  lemma FoldPreprocessHasInit(g1: Graph<SaState, SaAct>, g2: Graph<SaState, SaAct>)
    ensures (exists v :: 0 <= v < |FoldPreprocess(g1, g2).vs| && FoldPreprocess(g1, g2).vs[v].init) <==>
      (exists i :: 0 <= i < |g1.vs| && g1.vs[i].init) && (exists j :: 0 <= j < |g2.vs| && g2.vs[j].init)
  {
    var pre := FoldPreprocess(g1, g2);
    if i, j :| 0 <= i < |g1.vs| && g1.vs[i].init && 0 <= j < |g2.vs| && g2.vs[j].init {
      FoldPreprocessInit(g1, g2, i, j);
    }
    if v :| 0 <= v < |pre.vs| && pre.vs[v].init {
      InitPairSplits(g1, g2, v);
    }
  }

  /** An initial product state names an initial state of each factor. */
  lemma InitPairSplits(g1: Graph<SaState, SaAct>, g2: Graph<SaState, SaAct>, v: nat)
    requires v < |FoldPreprocess(g1, g2).vs| && FoldPreprocess(g1, g2).vs[v].init
    ensures exists i :: 0 <= i < |g1.vs| && g1.vs[i].init
    ensures exists j :: 0 <= j < |g2.vs| && g2.vs[j].init
  {
    assert InitPair(g1, g2, v);
    VertexIdOnto(|g1.vs|, |g2.vs|, v);
    var i, j := v / |g2.vs|, v % |g2.vs|;
    assert g1.vs[i].init && g2.vs[j].init;
  }

  /** `a1 * a2`: preprocess, fold, postprocess; the product is named `fold`.
      It raises on a clashing pair, and otherwise when one factor has no
      initial state. */
  function Product(a1: SaAutomaton, a2: SaAutomaton): (r: Result<SaAutomaton, SaError>)
    ensures r.Err? && r.error.Incompatible? <==> !NoClash(a1.g.es, a2.g.es)
    ensures r == Err(NoInitialState) <==>
      && NoClash(a1.g.es, a2.g.es)
      && ((forall i :: 0 <= i < |a1.g.vs| ==> !a1.g.vs[i].init) || (forall j :: 0 <= j < |a2.g.vs| ==> !a2.g.vs[j].init))
    ensures r.Ok? ==> r.value.name == "fold"
    ensures r.Ok? ==> && FoldEdges(a1.g, a2.g).Ok?
                      && r == FoldPostprocess(SaAutomaton("fold", Graph(FoldPreprocess(a1.g, a2.g).vs, FoldEdges(a1.g, a2.g).value)))
    ensures r.Ok? ==> RootedAtInit(r.value.g)
  {
    var pre := FoldPreprocess(a1.g, a2.g);
    match FoldEdges(a1.g, a2.g)
    case Err(c) => Err(c)
    case Ok(es) =>
      FoldPreprocessHasInit(a1.g, a2.g);
      var r := FoldPostprocess(SaAutomaton("fold", Graph(pre.vs, es)));
      if r.Ok? then
        PostprocessRooted(SaAutomaton("fold", Graph(pre.vs, es)));
        r
      else r
  }
}
