/** sia2graph's `sia.c`: the checks run on the state list the parser builds.
    A state has a name and a list of transitions (action, mode character,
    target state name).  `sia_check_duplicate` numbers the states; a second
    definition of a name is reported and ignored.  `sia_check_undefined`
    turns every transition into an edge; a transition to an undeclared name
    is reported instead. */
module SiaParse {
  import opened Graphs

  /** The parser's singly linked lists (`sia_targets_t`, `sia_vertices_t`). */
  datatype Cells<T> = Nil | Cons(head: T, next: Cells<T>)

  /** A transition (`sia_target_t`, made by `sia_create_target`): action
      name, mode character and the name of the target state. */
  datatype Target = Target(name: string, mode: char, vertex: string)

  /** A state definition (`sia_vertex_t`, made by `sia_create_vertex`). */
  datatype Vertex = Vertex(name: string, targets: Cells<Target>)

  /** A symbol table entry: the vertex id the state got and its transitions. */
  datatype Symbol = Symbol(id: nat, targets: Cells<Target>)

  /** Edge attributes: `name`, `mode` and `label` (action followed by mode). */
  datatype SiaAct = SiaAct(name: string, mode: char, text: string)

  /** No element occurs twice. */
  predicate Distinct<T(==)>(s: seq<T>)
  {
    forall i, j :: 0 <= i < j < |s| ==> s[i] != s[j]
  }

  // ---------------------------------------------------------------------------
  // Lists

  /** The elements of a list, head first. */
  function Elems<T>(c: Cells<T>): seq<T>
  {
    match c
    case Nil => []
    case Cons(h, t) => [h] + Elems(t)
  }

  /** `sia_add_target` and `sia_add_vertex`: a new cell in front of the list. */
  function Add<T>(x: T, list: Cells<T>): (r: Cells<T>)
    ensures Elems(r) == [x] + Elems(list)
    ensures |Elems(r)| == |Elems(list)| + 1
  {
    Cons(x, list)
  }

  /** The list built by adding `xs[0]`, then `xs[1]`, …, to `list`. */
  function AddAll<T>(xs: seq<T>, list: Cells<T>): Cells<T>
  {
    if |xs| == 0 then list else AddAll(xs[1..], Add(xs[0], list))
  }

  function Reversed<T>(s: seq<T>): (r: seq<T>)
    ensures |r| == |s|
  {
    if |s| == 0 then [] else Reversed(s[1..]) + [s[0]]
  }

  /** Since every cell goes in front, a list holds its elements in the
      reverse of the order they were added in. */
  lemma {:induction false} AddAllReverses<T>(xs: seq<T>, list: Cells<T>)
    ensures Elems(AddAll(xs, list)) == Reversed(xs) + Elems(list)
  {
    if |xs| > 0 {
      AddAllReverses(xs[1..], Add(xs[0], list));
      assert Reversed(xs) + Elems(list) == Reversed(xs[1..]) + ([xs[0]] + Elems(list));
    }
  }

  // ---------------------------------------------------------------------------
  // sia_check_duplicate

  /** The definition at position `i` repeats an earlier name. */
  predicate Seen(vs: seq<Vertex>, i: nat)
    requires i < |vs|
  {
    exists j :: 0 <= j < i && vs[j].name == vs[i].name
  }

  /** The names of the first `n` definitions that are not repeats, in order. */
  function Declared(vs: seq<Vertex>, n: nat): (r: seq<string>)
    requires n <= |vs|
    ensures |r| <= n
  {
    if n == 0 then []
    else Declared(vs, n - 1) + (if Seen(vs, n - 1) then [] else [vs[n - 1].name])
  }

  /** The names of the repeats among the first `n` definitions, in order. */
  function Redefinitions(vs: seq<Vertex>, n: nat): (r: seq<string>)
    requires n <= |vs|
  {
    if n == 0 then []
    else Redefinitions(vs, n - 1) + (if Seen(vs, n - 1) then [vs[n - 1].name] else [])
  }

  /** Every name defined among the first `n` definitions is declared. */
  lemma {:induction false} DeclaredHas(vs: seq<Vertex>, n: nat, x: string)
    requires n <= |vs|
    ensures x in Declared(vs, n) <==> exists j :: 0 <= j < n && vs[j].name == x
  {
    if n > 0 {
      DeclaredHas(vs, n - 1, x);
      if Seen(vs, n - 1) && vs[n - 1].name == x {
        var j :| 0 <= j < n - 1 && vs[j].name == vs[n - 1].name;
      }
    }
  }

  /** Each definition is either declared or reported, and the declared
      names are distinct. */
  lemma {:induction false} DeclaredSplits(vs: seq<Vertex>, n: nat)
    requires n <= |vs|
    ensures |Declared(vs, n)| + |Redefinitions(vs, n)| == n
    ensures Distinct(Declared(vs, n))
  {
    if n > 0 {
      DeclaredSplits(vs, n - 1);
      DeclaredHas(vs, n - 1, vs[n - 1].name);
    }
  }

  /** A distinct sequence has as many elements as its set. */
  lemma {:induction false} DistinctCard<T>(s: seq<T>)
    requires Distinct(s)
    ensures |set x | x in s| == |s|
  {
    if |s| > 0 {
      var p := s[..|s| - 1];
      DistinctCard(p);
      assert (set x | x in s) == (set x | x in p) + {s[|s| - 1]} by {
        assert s == p + [s[|s| - 1]];
      }
    }
  }

  /** The vertex count is the number of distinct state names. */
  lemma DeclaredCount(vs: seq<Vertex>)
    ensures |Declared(vs, |vs|)| == |set i | 0 <= i < |vs| :: vs[i].name|
  {
    var d := Declared(vs, |vs|);
    DeclaredSplits(vs, |vs|);
    DistinctCard(d);
    assert (set x | x in d) == (set i | 0 <= i < |vs| :: vs[i].name) by {
      forall x
        ensures x in d <==> x in (set i | 0 <= i < |vs| :: vs[i].name)
      {
        DeclaredHas(vs, |vs|, x);
      }
    }
  }

  /** The symbol table matches the vertices: the keys are the vertex labels
      and a key's id is the index of its label. */
  ghost predicate Table(labels: seq<string>, symbols: map<string, Symbol>)
  {
    && (forall x :: x in symbols <==> x in labels)
    && (forall k :: 0 <= k < |labels| ==> labels[k] in symbols && symbols[labels[k]].id == k)
  }

  /** sia.c `sia_check_duplicate` on an empty graph: the vertex labels, the
      symbol table and the names reported as redefinitions.  The first
      definition of a name wins. */
  method CheckDuplicate(sia: Cells<Vertex>) returns (labels: seq<string>, symbols: map<string, Symbol>, reports: seq<string>)
    ensures labels == Declared(Elems(sia), |Elems(sia)|)
    ensures reports == Redefinitions(Elems(sia), |Elems(sia)|)
    ensures Table(labels, symbols)
    ensures forall i :: 0 <= i < |Elems(sia)| && !Seen(Elems(sia), i) ==>
      Elems(sia)[i].name in symbols && symbols[Elems(sia)[i].name].targets == Elems(sia)[i].targets
  {
    ghost var vs := Elems(sia);
    ghost var i := 0;
    var c := sia;
    labels, symbols, reports := [], map[], [];
    while c.Cons?
      invariant i <= |vs| && Elems(c) == vs[i..]
      invariant DuplicatesDone(vs, i, labels, symbols, reports)
      decreases |Elems(c)|
    {
      var v := c.head;
      assert Elems(c) == [v] + Elems(c.next);
      assert vs[i..][0] == vs[i] && vs[i..][1..] == vs[i + 1..];
      assert v == vs[i] && Elems(c.next) == vs[i + 1..];
      if v.name !in symbols {
        DeclareStep(vs, i, labels, symbols, reports);
        symbols := symbols[v.name := Symbol(|labels|, v.targets)];
        labels := labels + [v.name];
      } else {
        RedefineStep(vs, i, labels, symbols, reports);
        reports := reports + [v.name];
      }
      c := c.next;
      i := i + 1;
    }
    assert Elems(c) == [] && i == |vs|;
  }

  /** What `sia_check_duplicate` has built after the first `i` definitions. */
  ghost predicate DuplicatesDone(vs: seq<Vertex>, i: nat, labels: seq<string>, symbols: map<string, Symbol>, reports: seq<string>)
    requires i <= |vs|
  {
    && labels == Declared(vs, i) && reports == Redefinitions(vs, i)
    && Table(labels, symbols)
    && FirstTargets(vs, i, symbols)
  }

  /** Each of the first `i` definitions that is not a repeat has its
      transitions stored under its name. */
  ghost predicate FirstTargets(vs: seq<Vertex>, i: nat, symbols: map<string, Symbol>)
    requires i <= |vs|
  {
    forall j :: 0 <= j < i && !Seen(vs, j) ==> vs[j].name in symbols && symbols[vs[j].name].targets == vs[j].targets
  }

  /** A new name gets the next id and keeps its transitions. */
  lemma DeclareStep(vs: seq<Vertex>, i: nat, labels: seq<string>, symbols: map<string, Symbol>, reports: seq<string>)
    requires i < |vs| && DuplicatesDone(vs, i, labels, symbols, reports) && vs[i].name !in symbols
    ensures DuplicatesDone(vs, i + 1, labels + [vs[i].name], symbols[vs[i].name := Symbol(|labels|, vs[i].targets)], reports)
  {
    var x := vs[i].name;
    DeclaredHas(vs, i, x);
    assert !Seen(vs, i);
    assert labels + [x] == Declared(vs, i + 1) && reports == Redefinitions(vs, i + 1);
    TableExtend(labels, symbols, x, vs[i].targets);
    KeepTargets(vs, i, symbols, |labels|);
  }

  /** A name not yet in the table gets the next id. */
  lemma TableExtend(labels: seq<string>, symbols: map<string, Symbol>, x: string, ts: Cells<Target>)
    requires Table(labels, symbols) && x !in symbols
    ensures Table(labels + [x], symbols[x := Symbol(|labels|, ts)])
  {
    var labels', symbols' := labels + [x], symbols[x := Symbol(|labels|, ts)];
    forall k | 0 <= k < |labels'|
      ensures labels'[k] in symbols' && symbols'[labels'[k]].id == k
    {
      if k < |labels| {
        assert labels'[k] == labels[k] != x;
      }
    }
  }

  /** Adding the first definition of `vs[i]` keeps the transitions of the
      first definitions before it. */
  lemma KeepTargets(vs: seq<Vertex>, i: nat, symbols: map<string, Symbol>, id: nat)
    requires i < |vs| && vs[i].name !in symbols && FirstTargets(vs, i, symbols)
    ensures FirstTargets(vs, i + 1, symbols[vs[i].name := Symbol(id, vs[i].targets)])
  {
  }

  /** A repeated name is reported and changes nothing else. */
  lemma RedefineStep(vs: seq<Vertex>, i: nat, labels: seq<string>, symbols: map<string, Symbol>, reports: seq<string>)
    requires i < |vs| && DuplicatesDone(vs, i, labels, symbols, reports) && vs[i].name in symbols
    ensures DuplicatesDone(vs, i + 1, labels, symbols, reports + [vs[i].name])
  {
    DeclaredHas(vs, i, vs[i].name);
    assert Seen(vs, i);
    assert labels == Declared(vs, i + 1) && reports + [vs[i].name] == Redefinitions(vs, i + 1);
    SkipTargets(vs, i, symbols);
  }

  /** A repeat adds nothing to the stored transitions. */
  lemma SkipTargets(vs: seq<Vertex>, i: nat, symbols: map<string, Symbol>)
    requires i < |vs| && Seen(vs, i) && FirstTargets(vs, i, symbols)
    ensures FirstTargets(vs, i + 1, symbols)
  {
    forall j | 0 <= j < i + 1 && !Seen(vs, j)
      ensures vs[j].name in symbols && symbols[vs[j].name].targets == vs[j].targets
    {
      assert j != i;
    }
  }

  // ---------------------------------------------------------------------------
  // sia_check_undefined

  /** The edge a transition of vertex `src` to vertex `dst` becomes. */
  function TargetEdge(src: nat, dst: nat, t: Target): Edge<SiaAct>
  {
    Edge(src, dst, SiaAct(t.name, t.mode, t.name + [t.mode]))
  }

  /** The edges of the transitions `ts` of state `x`, in order. */
  function StateEdges(symbols: map<string, Symbol>, x: string, ts: seq<Target>): (r: seq<Edge<SiaAct>>)
    requires x in symbols
    ensures |r| <= |ts|
  {
    if |ts| == 0 then []
    else
      var t := ts[|ts| - 1];
      StateEdges(symbols, x, ts[..|ts| - 1])
      + (if t.vertex in symbols then [TargetEdge(symbols[x].id, symbols[t.vertex].id, t)] else [])
  }

  /** The undeclared targets of the transitions `ts`, in order. */
  function StateMisses(symbols: map<string, Symbol>, ts: seq<Target>): seq<string>
  {
    if |ts| == 0 then []
    else
      var t := ts[|ts| - 1];
      StateMisses(symbols, ts[..|ts| - 1]) + (if t.vertex in symbols then [] else [t.vertex])
  }

  /** The transitions of state `x`. */
  function TargetsOf(symbols: map<string, Symbol>, x: string): seq<Target>
    requires x in symbols
  {
    Elems(symbols[x].targets)
  }

  /** The edges of the first `k` states of the iteration order. */
  function AllEdges(symbols: map<string, Symbol>, order: seq<string>, k: nat): seq<Edge<SiaAct>>
    requires k <= |order| && forall x :: x in order ==> x in symbols
  {
    if k == 0 then []
    else AllEdges(symbols, order, k - 1) + StateEdges(symbols, order[k - 1], TargetsOf(symbols, order[k - 1]))
  }

  /** The undeclared targets of the first `k` states of the iteration order. */
  function AllMisses(symbols: map<string, Symbol>, order: seq<string>, k: nat): seq<string>
    requires k <= |order| && forall x :: x in order ==> x in symbols
  {
    if k == 0 then []
    else AllMisses(symbols, order, k - 1) + StateMisses(symbols, TargetsOf(symbols, order[k - 1]))
  }

  /** Number of transitions of the first `k` states of the iteration order. */
  function Transitions(symbols: map<string, Symbol>, order: seq<string>, k: nat): nat
    requires k <= |order| && forall x :: x in order ==> x in symbols
  {
    if k == 0 then 0 else Transitions(symbols, order, k - 1) + |TargetsOf(symbols, order[k - 1])|
  }

  /** One edge or one report per transition. */
  lemma {:induction false} StateSplits(symbols: map<string, Symbol>, x: string, ts: seq<Target>)
    requires x in symbols
    ensures |StateEdges(symbols, x, ts)| + |StateMisses(symbols, ts)| == |ts|
  {
    if |ts| > 0 {
      StateSplits(symbols, x, ts[..|ts| - 1]);
    }
  }

  lemma {:induction false} AllSplits(symbols: map<string, Symbol>, order: seq<string>, k: nat)
    requires k <= |order| && forall x :: x in order ==> x in symbols
    ensures |AllEdges(symbols, order, k)| + |AllMisses(symbols, order, k)| == Transitions(symbols, order, k)
  {
    if k > 0 {
      AllSplits(symbols, order, k - 1);
      StateSplits(symbols, order[k - 1], TargetsOf(symbols, order[k - 1]));
    }
  }

  /** The edges of a state are its transitions to declared states. */
  lemma {:induction false} StateEdgesHas(symbols: map<string, Symbol>, x: string, ts: seq<Target>, e: Edge<SiaAct>)
    requires x in symbols
    ensures e in StateEdges(symbols, x, ts) <==>
      exists t :: t in ts && t.vertex in symbols && e == TargetEdge(symbols[x].id, symbols[t.vertex].id, t)
  {
    if |ts| > 0 {
      var p := ts[..|ts| - 1];
      StateEdgesHas(symbols, x, p, e);
      assert forall t :: t in ts <==> t in p || t == ts[|ts| - 1] by {
        assert ts == p + [ts[|ts| - 1]];
      }
    }
  }

  /** The reports of a state are its targets that are not declared. */
  lemma {:induction false} StateMissesHas(symbols: map<string, Symbol>, ts: seq<Target>, y: string)
    ensures y in StateMisses(symbols, ts) <==> y !in symbols && exists t :: t in ts && t.vertex == y
  {
    if |ts| > 0 {
      var p := ts[..|ts| - 1];
      StateMissesHas(symbols, p, y);
      assert forall t :: t in ts <==> t in p || t == ts[|ts| - 1] by {
        assert ts == p + [ts[|ts| - 1]];
      }
    }
  }

  /** A transition of a declared state to a declared state. */
  ghost predicate Linked(symbols: map<string, Symbol>, e: Edge<SiaAct>)
  {
    exists x, t :: x in symbols && t in Elems(symbols[x].targets) && t.vertex in symbols
      && e == TargetEdge(symbols[x].id, symbols[t.vertex].id, t)
  }

  /** A transition of a declared state to an undeclared name `y`. */
  ghost predicate Dangling(symbols: map<string, Symbol>, y: string)
  {
    y !in symbols && exists x, t :: x in symbols && t in Elems(symbols[x].targets) && t.vertex == y
  }

  lemma {:induction false} AllEdgesHas(symbols: map<string, Symbol>, order: seq<string>, k: nat, e: Edge<SiaAct>)
    requires k <= |order| && forall x :: x in order ==> x in symbols
    ensures e in AllEdges(symbols, order, k) <==>
      exists i, t :: 0 <= i < k && t in TargetsOf(symbols, order[i]) && t.vertex in symbols
        && e == TargetEdge(symbols[order[i]].id, symbols[t.vertex].id, t)
  {
    if k > 0 {
      var x := order[k - 1];
      var ts := TargetsOf(symbols, x);
      AllEdgesHas(symbols, order, k - 1, e);
      StateEdgesHas(symbols, x, ts, e);
      assert AllEdges(symbols, order, k) == AllEdges(symbols, order, k - 1) + StateEdges(symbols, x, ts);
      if e in StateEdges(symbols, x, ts) {
        var t :| t in ts && t.vertex in symbols && e == TargetEdge(symbols[x].id, symbols[t.vertex].id, t);
        assert 0 <= k - 1 < k && t in TargetsOf(symbols, order[k - 1]);
      }
      if i, t :| (0 <= i < k && t in TargetsOf(symbols, order[i]) && t.vertex in symbols
          && e == TargetEdge(symbols[order[i]].id, symbols[t.vertex].id, t)) {
        if i == k - 1 {
          assert e in StateEdges(symbols, x, ts);
        }
      }
    }
  }

  lemma {:induction false} AllMissesHas(symbols: map<string, Symbol>, order: seq<string>, k: nat, y: string)
    requires k <= |order| && forall x :: x in order ==> x in symbols
    ensures y in AllMisses(symbols, order, k) <==>
      y !in symbols && exists i, t :: 0 <= i < k && t in TargetsOf(symbols, order[i]) && t.vertex == y
  {
    if k > 0 {
      AllMissesHas(symbols, order, k - 1, y);
      StateMissesHas(symbols, TargetsOf(symbols, order[k - 1]), y);
    }
  }

  /** Over a whole iteration order, the edges are exactly the transitions
      between declared states, and the reports exactly the undeclared
      targets. */
  lemma AllExact(symbols: map<string, Symbol>, order: seq<string>)
    requires forall x :: x in order <==> x in symbols
    ensures forall e :: e in AllEdges(symbols, order, |order|) <==> Linked(symbols, e)
    ensures forall y :: y in AllMisses(symbols, order, |order|) <==> Dangling(symbols, y)
  {
    forall e
      ensures e in AllEdges(symbols, order, |order|) <==> Linked(symbols, e)
    {
      AllEdgesHas(symbols, order, |order|, e);
      if Linked(symbols, e) {
        var x, t :| x in symbols && t in Elems(symbols[x].targets) && t.vertex in symbols
          && e == TargetEdge(symbols[x].id, symbols[t.vertex].id, t);
        var i :| 0 <= i < |order| && order[i] == x;
        assert t in TargetsOf(symbols, order[i]);
      }
    }
    forall y
      ensures y in AllMisses(symbols, order, |order|) <==> Dangling(symbols, y)
    {
      AllMissesHas(symbols, order, |order|, y);
      if Dangling(symbols, y) {
        var x, t :| x in symbols && t in Elems(symbols[x].targets) && t.vertex == y;
        var i :| 0 <= i < |order| && order[i] == x;
        assert t in TargetsOf(symbols, order[i]);
      }
    }
  }

  /** One more transition adds its edge or its report. */
  lemma StateStep(symbols: map<string, Symbol>, x: string, ts: seq<Target>, j: nat)
    requires x in symbols && j < |ts|
    ensures StateEdges(symbols, x, ts[..j + 1]) == StateEdges(symbols, x, ts[..j])
      + (if ts[j].vertex in symbols then [TargetEdge(symbols[x].id, symbols[ts[j].vertex].id, ts[j])] else [])
    ensures StateMisses(symbols, ts[..j + 1]) == StateMisses(symbols, ts[..j]) + (if ts[j].vertex in symbols then [] else [ts[j].vertex])
  {
    assert ts[..j + 1][..j] == ts[..j];
  }

  /** The inner loop of `sia_check_undefined`: the edges of the transitions
      of state `x` whose target is declared, and the undeclared targets. */
  method CheckTargets(symbols: map<string, Symbol>, x: string) returns (es: seq<Edge<SiaAct>>, reports: seq<string>)
    requires x in symbols
    ensures es == StateEdges(symbols, x, TargetsOf(symbols, x))
    ensures reports == StateMisses(symbols, TargetsOf(symbols, x))
  {
    es, reports := [], [];
    var c := symbols[x].targets;
    ghost var ts := Elems(c);
    ghost var j := 0;
    while c.Cons?
      invariant j <= |ts| && Elems(c) == ts[j..]
      invariant es == StateEdges(symbols, x, ts[..j])
      invariant reports == StateMisses(symbols, ts[..j])
      decreases |Elems(c)|
    {
      var t := c.head;
      assert Elems(c) == [t] + Elems(c.next);
      assert ts[j..][0] == ts[j] && ts[j..][1..] == ts[j + 1..];
      assert ts[j] == t && Elems(c.next) == ts[j + 1..];
      StateStep(symbols, x, ts, j);
      if t.vertex in symbols {
        es := es + [TargetEdge(symbols[x].id, symbols[t.vertex].id, t)];
      } else {
        reports := reports + [t.vertex];
      }
      c := c.next;
      j := j + 1;
    }
    assert Elems(c) == [] && j == |ts| && ts[..j] == ts;
  }

  /** sia.c `sia_check_undefined`: the edges added, and the undeclared names
      reported, visiting the table's states in `order` (the hash table's
      iteration order, any listing of its keys). */
  method CheckUndefined(n: nat, symbols: map<string, Symbol>, order: seq<string>) returns (es: seq<Edge<SiaAct>>, reports: seq<string>)
    requires Distinct(order) && forall x :: x in order <==> x in symbols
    requires forall x :: x in symbols ==> symbols[x].id < n
    ensures forall e :: e in es ==> e.src < n && e.dst < n
    ensures forall e :: e in es <==> Linked(symbols, e)
    ensures forall y :: y in reports <==> Dangling(symbols, y)
    ensures |es| + |reports| == Transitions(symbols, order, |order|)
    ensures es == AllEdges(symbols, order, |order|) && reports == AllMisses(symbols, order, |order|)
  {
    es, reports := [], [];
    var k := 0;
    while k < |order|
      invariant k <= |order|
      invariant es == AllEdges(symbols, order, k) && reports == AllMisses(symbols, order, k)
    {
      var found, missing := CheckTargets(symbols, order[k]);
      es, reports := es + found, reports + missing;
      k := k + 1;
    }
    AllExact(symbols, order);
    AllSplits(symbols, order, |order|);
    forall e | e in es
      ensures e.src < n && e.dst < n
    {
      LinkedInRange(n, symbols, e);
    }
  }

  /** An edge of a transition joins the ids of two declared states. */
  lemma LinkedInRange(n: nat, symbols: map<string, Symbol>, e: Edge<SiaAct>)
    requires forall x :: x in symbols ==> symbols[x].id < n
    requires Linked(symbols, e)
    ensures e.src < n && e.dst < n
  {
    var x, t :| x in symbols && t in Elems(symbols[x].targets) && t.vertex in symbols
      && e == TargetEdge(symbols[x].id, symbols[t.vertex].id, t);
  }

  // ---------------------------------------------------------------------------
  // Both checks

  /** An edge between vertices labelled by name in `labels`: a transition of
      the first definition of its source's name to its target's name. */
  ghost predicate FromDefinition(vs: seq<Vertex>, labels: seq<string>, e: Edge<SiaAct>)
  {
    && e.src < |labels| && e.dst < |labels|
    && (exists i, t :: 0 <= i < |vs| && !Seen(vs, i) && vs[i].name == labels[e.src]
          && t in Elems(vs[i].targets) && t.vertex == labels[e.dst] && e.attr == SiaAct(t.name, t.mode, t.name + [t.mode]))
  }

  /** What `CheckDuplicate` leaves behind for the list `vs`. */
  ghost predicate Checked(vs: seq<Vertex>, labels: seq<string>, symbols: map<string, Symbol>)
  {
    && labels == Declared(vs, |vs|)
    && Table(labels, symbols)
    && forall i :: 0 <= i < |vs| && !Seen(vs, i) ==> vs[i].name in symbols && symbols[vs[i].name].targets == vs[i].targets
  }

  lemma LinkedFromDefinition(vs: seq<Vertex>, labels: seq<string>, symbols: map<string, Symbol>, e: Edge<SiaAct>)
    requires Checked(vs, labels, symbols) && Linked(symbols, e)
    ensures FromDefinition(vs, labels, e)
  {
    var x, t :| x in symbols && t in Elems(symbols[x].targets) && t.vertex in symbols
      && e == TargetEdge(symbols[x].id, symbols[t.vertex].id, t);
    DeclaredHas(vs, |vs|, x);
    var i := FirstDefinition(vs, x);
    assert labels[symbols[x].id] == x;
    assert labels[symbols[t.vertex].id] == t.vertex;
  }

  lemma DefinitionLinked(vs: seq<Vertex>, labels: seq<string>, symbols: map<string, Symbol>, e: Edge<SiaAct>)
    requires Checked(vs, labels, symbols) && FromDefinition(vs, labels, e)
    ensures Linked(symbols, e)
  {
    var i, t :| 0 <= i < |vs| && !Seen(vs, i) && vs[i].name == labels[e.src]
      && t in Elems(vs[i].targets) && t.vertex == labels[e.dst] && e.attr == SiaAct(t.name, t.mode, t.name + [t.mode]);
    var x := vs[i].name;
    assert symbols[x].id == e.src && symbols[t.vertex].id == e.dst;
    assert t in Elems(symbols[x].targets);
  }

  /** A name no definition declares that a transition of a first definition
      targets. */
  ghost predicate UndeclaredTarget(vs: seq<Vertex>, y: string)
  {
    && (forall i :: 0 <= i < |vs| ==> vs[i].name != y)
    && exists i, t :: 0 <= i < |vs| && !Seen(vs, i) && t in Elems(vs[i].targets) && t.vertex == y
  }

  lemma DanglingUndeclared(vs: seq<Vertex>, labels: seq<string>, symbols: map<string, Symbol>, y: string)
    requires Checked(vs, labels, symbols)
    ensures Dangling(symbols, y) <==> UndeclaredTarget(vs, y)
  {
    DeclaredHas(vs, |vs|, y);
    if Dangling(symbols, y) {
      var x, t :| x in symbols && t in Elems(symbols[x].targets) && t.vertex == y;
      DeclaredHas(vs, |vs|, x);
      var i := FirstDefinition(vs, x);
      assert t in Elems(vs[i].targets);
    }
    if UndeclaredTarget(vs, y) {
      var i, t :| 0 <= i < |vs| && !Seen(vs, i) && t in Elems(vs[i].targets) && t.vertex == y;
      DeclaredHas(vs, |vs|, vs[i].name);
      assert t in Elems(symbols[vs[i].name].targets);
    }
  }

  /** main.c's use of the checks: an empty graph, then `sia_check_duplicate`,
      then `sia_check_undefined` in the table's iteration order `order`.
      The graph has one vertex per distinct state name, labelled with it;
      its edges are exactly the transitions of first definitions whose
      target is declared. */
  method SiaToGraph(sia: Cells<Vertex>, order: seq<string>) returns (g: Graph<string, SiaAct>, redefined: seq<string>, undeclared: seq<string>)
    requires Distinct(order)
    requires forall x :: x in order <==> exists i :: 0 <= i < |Elems(sia)| && Elems(sia)[i].name == x
    ensures WellFormed(g) && Distinct(g.vs)
    ensures |g.vs| == |set i | 0 <= i < |Elems(sia)| :: Elems(sia)[i].name|
    ensures |g.vs| + |redefined| == |Elems(sia)|
    ensures forall e :: e in g.es <==> FromDefinition(Elems(sia), g.vs, e)
    ensures forall y :: y in undeclared <==> UndeclaredTarget(Elems(sia), y)
    ensures exists symbols :: (Checked(Elems(sia), g.vs, symbols) && (forall x :: x in order <==> x in symbols)
      && g.es == AllEdges(symbols, order, |order|) && undeclared == AllMisses(symbols, order, |order|))
  {
    ghost var vs := Elems(sia);
    var labels, symbols, reports := CheckDuplicate(sia);
    redefined := reports;
    DeclaredSplits(vs, |vs|);
    DeclaredCount(vs);
    forall x
      ensures x in order <==> x in symbols
    {
      DeclaredHas(vs, |vs|, x);
    }
    assert Checked(vs, labels, symbols);
    var es, misses := CheckUndefined(|labels|, symbols, order);
    undeclared := misses;
    g := Graph(labels, es);
    CheckedExact(vs, labels, symbols, order);
  }

  /** Over the table `sia_check_duplicate` built, the edges and reports of
      `sia_check_undefined` are described by the definitions themselves. */
  lemma CheckedExact(vs: seq<Vertex>, labels: seq<string>, symbols: map<string, Symbol>, order: seq<string>)
    requires Checked(vs, labels, symbols)
    requires forall x :: x in order <==> x in symbols
    ensures forall e :: e in AllEdges(symbols, order, |order|) <==> FromDefinition(vs, labels, e)
    ensures forall y :: y in AllMisses(symbols, order, |order|) <==> UndeclaredTarget(vs, y)
  {
    AllExact(symbols, order);
    forall e
      ensures Linked(symbols, e) <==> FromDefinition(vs, labels, e)
    {
      if Linked(symbols, e) {
        LinkedFromDefinition(vs, labels, symbols, e);
      }
      if FromDefinition(vs, labels, e) {
        DefinitionLinked(vs, labels, symbols, e);
      }
    }
    forall y
      ensures Dangling(symbols, y) <==> UndeclaredTarget(vs, y)
    {
      DanglingUndeclared(vs, labels, symbols, y);
    }
  }

  /** The position of the first definition of a defined name. */
  lemma FirstDefinition(vs: seq<Vertex>, x: string) returns (i: nat)
    requires exists j :: 0 <= j < |vs| && vs[j].name == x
    ensures i < |vs| && vs[i].name == x && !Seen(vs, i)
  {
    var j :| 0 <= j < |vs| && vs[j].name == x;
    i := j;
    while Seen(vs, i)
      invariant i < |vs| && vs[i].name == x
      decreases i
    {
      var k :| 0 <= k < i && vs[k].name == vs[i].name;
      i := k;
    }
  }
}
