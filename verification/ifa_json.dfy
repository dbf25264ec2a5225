/** `json2igraph` of ifa.py: the interface automaton of a JSON description,
    a list of ports.  A port is a string of `&`-separated actions followed by
    one mode character; the automaton performs the actions of each port in
    every order (one path per permutation, all paths of a port joined at the
    end of the first one) and the ports one after the other, the last port
    returning to state 0. */
module IfaJson {
  import opened Graphs
  import opened ProductIds

  /** The attributes ifa.py puts on an edge (`text` is its `label`). */
  datatype IfaAct = IfaAct(text: string, name: string, mode: string)

  /** ifa.py graphs carry no vertex attributes that the model needs. */
  type IfaGraph = Graph<(), IfaAct>

  // ---------------------------------------------------------------------------
  // Strings

  /** Python `s.split(sep)`: the pieces between the separators, so one more
      piece than separators (an empty string gives one empty piece). */
  function Split(s: string, sep: char): (r: seq<string>)
    ensures |r| > 0
    ensures forall k :: 0 <= k < |r| ==> sep !in r[k]
  {
    if |s| == 0 then [""]
    else
      var rest := Split(s[1..], sep);
      if s[0] == sep then [""] + rest
      else [[s[0]] + rest[0]] + rest[1..]
  }

  /** Python `sep.join(ps)`. */
  function Join(ps: seq<string>, sep: char): string
    requires |ps| > 0
  {
    if |ps| == 1 then ps[0] else ps[0] + [sep] + Join(ps[1..], sep)
  }

  /** Splitting loses nothing: joining the pieces gives the string back. */
  lemma {:induction false} SplitJoin(s: string, sep: char)
    ensures Join(Split(s, sep), sep) == s
  {
    if |s| > 0 {
      SplitJoin(s[1..], sep);
      var rest := Split(s[1..], sep);
      if s[0] != sep && |rest| > 1 {
        assert ([[s[0]] + rest[0]] + rest[1..])[1..] == rest[1..];
      }
    }
  }

  /** The pieces of a string without separators are the string itself. */
  lemma {:induction false} SplitNone(s: string, sep: char)
    requires sep !in s
    ensures Split(s, sep) == [s]
  {
    if |s| > 0 {
      assert sep !in s[1..] by {
        assert forall c :: c in s[1..] ==> c in s;
      }
      SplitNone(s[1..], sep);
      assert [s[0]] + s[1..] == s;
    }
  }

  /** `port[-1:]`: the mode, the last character (none of an empty string). */
  function PortMode(port: string): (r: string)
    ensures |r| == if |port| == 0 then 0 else 1
    ensures port == PortActions(port) + r
  {
    if |port| == 0 then "" else port[|port| - 1..]
  }

  /** `port[0:-1]`: everything but the mode. */
  function PortActions(port: string): string
  {
    if |port| == 0 then "" else port[..|port| - 1]
  }

  // ---------------------------------------------------------------------------
  // itertools.permutations

  /** `x` put in front of every sequence of `ps`. */
  function Prepend<T>(x: T, ps: seq<seq<T>>): (r: seq<seq<T>>)
    ensures |r| == |ps|
    ensures forall j :: 0 <= j < |r| ==> r[j] == [x] + ps[j]
  {
    seq(|ps|, j requires 0 <= j < |ps| => [x] + ps[j])
  }

  /** `s` without its element at position `i`. */
  function Drop<T>(s: seq<T>, i: nat): (r: seq<T>)
    requires i < |s|
    ensures |r| == |s| - 1
    ensures multiset(r) + multiset{s[i]} == multiset(s)
  {
    assert s == s[..i] + [s[i]] + s[i + 1..];
    s[..i] + s[i + 1..]
  }

  /** `itertools.permutations(s)`: the orderings of the positions of `s`, in
      lexicographic order of positions. */
  function Perms<T>(s: seq<T>): seq<seq<T>>
    decreases |s|, 1, 0
  {
    if |s| == 0 then [[]] else PermsFrom(s, 0)
  }

  /** The orderings of `s` that start with one of the positions `i..`. */
  function PermsFrom<T>(s: seq<T>, i: nat): seq<seq<T>>
    requires i <= |s|
    decreases |s|, 0, |s| - i
  {
    if i == |s| then [] else Prepend(s[i], Perms(Drop(s, i))) + PermsFrom(s, i + 1)
  }

  function Fact(n: nat): (r: nat)
    ensures r > 0
  {
    if n == 0 then 1 else n * Fact(n - 1)
  }

  /** There are `k!` orderings of `k` elements. */
  lemma {:induction false} PermsCount<T>(s: seq<T>)
    ensures |Perms(s)| == Fact(|s|)
    decreases |s|, 1, 0
  {
    if |s| > 0 {
      PermsFromCount(s, 0);
    }
  }

  lemma {:induction false} PermsFromCount<T>(s: seq<T>, i: nat)
    requires 0 < |s| && i <= |s|
    ensures |PermsFrom(s, i)| == (|s| - i) * Fact(|s| - 1)
    decreases |s|, 0, |s| - i
  {
    if i < |s| {
      PermsCount(Drop(s, i));
      PermsFromCount(s, i + 1);
      MulSucc(|s| - i - 1, Fact(|s| - 1));
    }
  }

  /** Each ordering is a rearrangement of all the elements. */
  lemma {:induction false} PermsArrange<T>(s: seq<T>)
    ensures forall p :: p in Perms(s) ==> multiset(p) == multiset(s)
    decreases |s|, 1, 0
  {
    if |s| > 0 {
      PermsFromArrange(s, 0);
    }
  }

  lemma {:induction false} PermsFromArrange<T>(s: seq<T>, i: nat)
    requires 0 < |s| && i <= |s|
    ensures forall p :: p in PermsFrom(s, i) ==> multiset(p) == multiset(s)
    decreases |s|, 0, |s| - i
  {
    if i < |s| {
      var here, rest := Prepend(s[i], Perms(Drop(s, i))), PermsFrom(s, i + 1);
      PermsArrange(Drop(s, i));
      PrependArrange(s, i, Perms(Drop(s, i)));
      PermsFromArrange(s, i + 1);
      assert PermsFrom(s, i) == here + rest;
      assert forall p :: p in here + rest ==> p in here || p in rest;
    }
  }

  /** Putting `s[i]` in front of rearrangements of the other elements gives
      rearrangements of all of them. */
  lemma PrependArrange<T>(s: seq<T>, i: nat, sub: seq<seq<T>>)
    requires i < |s|
    requires forall p :: p in sub ==> multiset(p) == multiset(Drop(s, i))
    ensures forall p :: p in Prepend(s[i], sub) ==> multiset(p) == multiset(s)
  {
    var here := Prepend(s[i], sub);
    forall p | p in here
      ensures multiset(p) == multiset(s)
    {
      var j :| 0 <= j < |here| && here[j] == p;
      assert sub[j] in sub;
    }
  }

  /** Every ordering has the length of `s`. */
  lemma PermsLength<T>(s: seq<T>, p: seq<T>)
    requires p in Perms(s)
    ensures |p| == |s|
  {
    PermsArrange(s);
    assert |multiset(p)| == |multiset(s)|;
  }

  // ---------------------------------------------------------------------------
  // The builder

  /** The loop variables of `json2igraph`: the vertex count (`idx` is the
      last vertex, `count - 1`), the edges so far, `idx_src`,
      `idx_path_end` and `idx_dst`. */
  datatype Build = Build(count: nat, es: seq<Edge<IfaAct>>, src: nat, pathEnd: nat, dst: nat)

  /** The vertices the loop variables name exist; vertex 0 was there from
      the start. */
  predicate Sane(b: Build)
  {
    b.count > 0 && b.src < b.count && b.pathEnd < b.count && b.dst < b.count
  }

  /** The edges so far join existing vertices. */
  predicate Valid(b: Build)
  {
    Sane(b) && forall e :: e in b.es ==> e.src < b.count && e.dst < b.count
  }

  /** Where the edge of action `actIdx` of path `pathIdx` goes, and the vertex
      count after it: back to 0 at the end of the last port; to a new vertex
      inside a path, on a one-action port and all along the first path; else
      to the end of the first path. */
  function Target(b: Build, lastPort: bool, k: nat, pathIdx: nat, actIdx: nat): (r: (nat, nat))
  {
    if lastPort && actIdx + 1 >= k then (0, b.count)
    else if k == 1 || actIdx + 1 < k || pathIdx == 0 then (b.count, b.count + 1)
    else (b.pathEnd, b.count)
  }

  /** One action (ifa.py:42-64): one edge, perhaps one new vertex. */
  function Step(b: Build, start: nat, lastPort: bool, k: nat, pathIdx: nat, actIdx: nat, act: string, mode: string): (r: Build)
    requires Sane(b) && start < b.count
    ensures Sane(r) && r.count >= b.count && r.pathEnd == b.pathEnd
    ensures r.es == b.es + [Edge(r.src, r.dst, IfaAct(act + mode, act, mode))]
    ensures lastPort && actIdx + 1 >= k ==> r.dst == 0
  {
    var src := if actIdx == 0 then start else b.count - 1;
    var (dst, count) := Target(b, lastPort, k, pathIdx, actIdx);
    b.(count := count, es := b.es + [Edge(src, dst, IfaAct(act + mode, act, mode))], src := src, dst := dst)
  }

  /** The actions `path[actIdx..]` of one path of `k` actions. */
  function Path(b: Build, start: nat, lastPort: bool, k: nat, pathIdx: nat, path: seq<string>, actIdx: nat, mode: string): (r: Build)
    requires Sane(b) && start < b.count && actIdx <= |path| == k
    ensures Sane(r) && r.count >= b.count
    ensures |r.es| == |b.es| + |path| - actIdx
    ensures actIdx < |path| ==> r.es[|r.es| - 1].dst == r.dst
    ensures actIdx < |path| && lastPort ==> r.dst == 0
    decreases |path| - actIdx
  {
    if actIdx == |path| then b
    else Path(Step(b, start, lastPort, k, pathIdx, actIdx, path[actIdx], mode), start, lastPort, k, pathIdx, path, actIdx + 1, mode)
  }

  /** What `json2igraph` does after a path: the first path's end is
      remembered, and the next port starts where the path ended. */
  function AfterPath(b: Build, pathIdx: nat): (r: Build)
  {
    b.(pathEnd := if pathIdx == 0 then b.dst else b.pathEnd, src := b.dst)
  }

  /** The paths `paths[pathIdx..]` of one port, all starting at `start`
      (ifa.py:40-69). */
  function Paths(b: Build, start: nat, lastPort: bool, k: nat, paths: seq<seq<string>>, pathIdx: nat, mode: string): (r: Build)
    requires Sane(b) && start < b.count && pathIdx <= |paths|
    requires forall p :: p in paths ==> |p| == k
    ensures Sane(r) && r.count >= b.count
    ensures |r.es| >= |b.es| && (pathIdx < |paths| ==> |r.es| >= |b.es| + k)
    ensures pathIdx < |paths| && k > 0 && lastPort ==> r.dst == 0
    decreases |paths| - pathIdx
  {
    if pathIdx == |paths| then b
    else
      assert paths[pathIdx] in paths;
      Paths(AfterPath(Path(b, start, lastPort, k, pathIdx, paths[pathIdx], 0, mode), pathIdx), start, lastPort, k, paths, pathIdx + 1, mode)
  }

  /** The paths from `pathIdx` are the first of them, then the rest from
      where it leaves the builder: one edge more per action, the last one
      leading to where the path ends. */
  lemma PathsUnfold(b: Build, start: nat, lastPort: bool, k: nat, paths: seq<seq<string>>, pathIdx: nat, mode: string) returns (b2: Build)
    requires Sane(b) && start < b.count && pathIdx < |paths|
    requires forall p :: p in paths ==> |p| == k
    ensures Sane(b2) && start < b2.count && |b2.es| == |b.es| + k
    ensures k > 0 ==> b2.es[|b2.es| - 1].dst == b2.dst
    ensures Paths(b, start, lastPort, k, paths, pathIdx, mode) == Paths(b2, start, lastPort, k, paths, pathIdx + 1, mode)
  {
    assert paths[pathIdx] in paths;
    b2 := AfterPath(Path(b, start, lastPort, k, pathIdx, paths[pathIdx], 0, mode), pathIdx);
  }

  /** The last edge of the paths leads to where they end. */
  lemma {:induction false} PathsLast(b: Build, start: nat, lastPort: bool, k: nat, paths: seq<seq<string>>, pathIdx: nat, mode: string)
    requires Sane(b) && start < b.count && pathIdx < |paths| && k > 0
    requires forall p :: p in paths ==> |p| == k
    ensures var r := Paths(b, start, lastPort, k, paths, pathIdx, mode);
      r.es[|r.es| - 1].dst == r.dst
    decreases |paths| - pathIdx
  {
    var b2 := PathsUnfold(b, start, lastPort, k, paths, pathIdx, mode);
    if pathIdx + 1 < |paths| {
      PathsLast(b2, start, lastPort, k, paths, pathIdx + 1, mode);
    } else {
      assert Paths(b2, start, lastPort, k, paths, pathIdx + 1, mode) == b2;
    }
  }

  /** Each path of a port adds one edge per action. */
  lemma {:induction false} PathsCount(b: Build, start: nat, lastPort: bool, k: nat, paths: seq<seq<string>>, pathIdx: nat, mode: string)
    requires Sane(b) && start < b.count && pathIdx <= |paths|
    requires forall p :: p in paths ==> |p| == k
    ensures |Paths(b, start, lastPort, k, paths, pathIdx, mode).es| == |b.es| + (|paths| - pathIdx) * k
    decreases |paths| - pathIdx
  {
    if pathIdx < |paths| {
      var b2 := PathsUnfold(b, start, lastPort, k, paths, pathIdx, mode);
      PathsCount(b2, start, lastPort, k, paths, pathIdx + 1, mode);
      var r := Paths(b2, start, lastPort, k, paths, pathIdx + 1, mode);
      CountStep(|b.es|, |b2.es|, |r.es|, |paths| - (pathIdx + 1), |paths| - pathIdx, k);
    } else {
      assert Paths(b, start, lastPort, k, paths, pathIdx, mode) == b;
      assert (|paths| - pathIdx) * k == 0;
    }
  }

  /** `k` edges, then `t` times `k` more, are `t + 1` times `k`. */
  lemma CountStep(x: nat, y: nat, z: nat, t: nat, n: nat, k: nat)
    requires y == x + k && z == y + t * k && n == t + 1
    ensures z == x + n * k
  {
    MulSucc(t, k);
  }

  /** The actions of a port, in the order the string lists them. */
  function PortActs(port: string): (r: seq<string>)
    ensures |r| > 0
  {
    Split(PortActions(port), '&')
  }

  /** Every ordering of a port's actions has all of them. */
  lemma PortPaths(port: string)
    ensures forall p :: p in Perms(PortActs(port)) ==> |p| == |PortActs(port)|
  {
    forall p | p in Perms(PortActs(port))
      ensures |p| == |PortActs(port)|
    {
      PermsLength(PortActs(port), p);
    }
  }

  /** One port (ifa.py:31-69): every ordering of its actions, from the vertex
      the previous port ended in. */
  function Port(b: Build, port: string, lastPort: bool): (r: Build)
    requires Sane(b)
    ensures Sane(r) && r.count >= b.count
    ensures lastPort ==> r.dst == 0
  {
    PortPaths(port);
    PermsCount(PortActs(port));
    Paths(b, b.src, lastPort, |PortActs(port)|, Perms(PortActs(port)), 0, PortMode(port))
  }

  /** A port is all orderings of its actions from where the previous port
      ended; there is at least one ordering, of at least one action. */
  lemma PortUnfold(b: Build, port: string, lastPort: bool) returns (k: nat, perms: seq<seq<string>>)
    requires Sane(b)
    ensures k == |PortActs(port)| > 0 && perms == Perms(PortActs(port)) && |perms| == Fact(k) > 0
    ensures forall p :: p in perms ==> |p| == k
    ensures Port(b, port, lastPort) == Paths(b, b.src, lastPort, k, perms, 0, PortMode(port))
  {
    k, perms := |PortActs(port)|, Perms(PortActs(port));
    PortPaths(port);
    PermsCount(PortActs(port));
  }

  /** A port with `k` actions adds `k * k!` edges. */
  lemma PortEdgesOf(b: Build, port: string, lastPort: bool)
    requires Sane(b)
    ensures |Port(b, port, lastPort).es| == |b.es| + |PortActs(port)| * Fact(|PortActs(port)|)
  {
    var k, perms := PortUnfold(b, port, lastPort);
    var r := Paths(b, b.src, lastPort, k, perms, 0, PortMode(port));
    PathsCount(b, b.src, lastPort, k, perms, 0, PortMode(port));
    PortCount(|b.es|, |r.es|, |perms|, Fact(k), k);
  }

  /** The last edge of a port leads to where the port ends. */
  lemma PortLast(b: Build, port: string, lastPort: bool)
    requires Sane(b)
    ensures var r := Port(b, port, lastPort);
      |r.es| > 0 && r.es[|r.es| - 1].dst == r.dst
  {
    var k, perms := PortUnfold(b, port, lastPort);
    PathsLast(b, b.src, lastPort, k, perms, 0, PortMode(port));
  }

  /** `n` orderings of `k` actions, `n` being `k!`, add `k * k!` edges. */
  lemma PortCount(x: nat, z: nat, n: nat, f: nat, k: nat)
    requires z == x + (n - 0) * k && n == f
    ensures z == x + k * f
  {
  }

  /** Number of edges the ports `ports[i..]` contribute. */
  function PortEdges(ports: seq<string>, i: nat): nat
    requires i <= |ports|
    decreases |ports| - i
  {
    if i == |ports| then 0 else |PortActs(ports[i])| * Fact(|PortActs(ports[i])|) + PortEdges(ports, i + 1)
  }

  /** The ports `ports[i..]`, each starting where the previous one ended. */
  function Ports(b: Build, ports: seq<string>, i: nat): (r: Build)
    requires Sane(b) && i <= |ports|
    ensures Sane(r) && r.count >= b.count
    decreases |ports| - i
  {
    if i == |ports| then b
    else
      var b1 := Port(b, ports[i], i == |ports| - 1);
      Ports(b1.(src := b1.dst), ports, i + 1)
  }

  /** The ports add `k * k!` edges each. */
  lemma {:induction false} PortsEdges(b: Build, ports: seq<string>, i: nat)
    requires Sane(b) && i <= |ports|
    ensures |Ports(b, ports, i).es| == |b.es| + PortEdges(ports, i)
    decreases |ports| - i
  {
    if i < |ports| {
      var b2, n := PortsUnfold(b, ports, i);
      PortsEdges(b2, ports, i + 1);
      AddUp(|b.es|, |b2.es|, |Ports(b, ports, i).es|, n, PortEdges(ports, i + 1), PortEdges(ports, i));
    } else {
      assert Ports(b, ports, i) == b && PortEdges(ports, i) == 0;
    }
  }

  /** `n` edges and then `m` more make `n + m`. */
  lemma AddUp(x: nat, y: nat, z: nat, n: nat, m: nat, total: nat)
    requires y == x + n && z == y + m && total == n + m
    ensures z == x + total
  {
  }

  /** The last edge of the last port returns to vertex 0. */
  lemma {:induction false} PortsLast(b: Build, ports: seq<string>, i: nat)
    requires Sane(b) && i < |ports|
    ensures |Ports(b, ports, i).es| > 0 && Ports(b, ports, i).es[|Ports(b, ports, i).es| - 1].dst == 0
    decreases |ports| - i
  {
    var b2, n := PortsUnfold(b, ports, i);
    if i + 1 < |ports| {
      PortsLast(b2, ports, i + 1);
    } else {
      assert Ports(b2, ports, i + 1) == b2;
    }
  }

  lemma PositiveProduct(a: nat, b: nat)
    requires a > 0 && b > 0
    ensures a * b > 0
  {
  }

  /** The ports from `i` are port `i`, adding `n` edges, then the rest from
      where it ends. */
  lemma PortsUnfold(b: Build, ports: seq<string>, i: nat) returns (b2: Build, n: nat)
    requires Sane(b) && i < |ports|
    ensures Sane(b2) && n > 0 && |b2.es| == |b.es| + n
    ensures i + 1 == |ports| ==> b2.es[|b2.es| - 1].dst == 0
    ensures Ports(b, ports, i) == Ports(b2, ports, i + 1)
    ensures PortEdges(ports, i) == n + PortEdges(ports, i + 1)
    ensures b2.es == Port(b, ports[i], i + 1 == |ports|).es
  {
    var b1 := Port(b, ports[i], i == |ports| - 1);
    b2 := b1.(src := b1.dst);
    var k := |PortActs(ports[i])|;
    n := k * Fact(k);
    PortEdgesOf(b, ports[i], i == |ports| - 1);
    PortLast(b, ports[i], i == |ports| - 1);
    assert n > 0 by { PositiveProduct(k, Fact(k)); }
  }

  // ---------------------------------------------------------------------------
  // Edges join existing vertices

  lemma StepValid(b: Build, start: nat, lastPort: bool, k: nat, pathIdx: nat, actIdx: nat, act: string, mode: string)
    requires Valid(b) && start < b.count
    ensures Valid(Step(b, start, lastPort, k, pathIdx, actIdx, act, mode))
  {
  }

  lemma {:induction false} PathValid(b: Build, start: nat, lastPort: bool, k: nat, pathIdx: nat, path: seq<string>, actIdx: nat, mode: string)
    requires Valid(b) && start < b.count && actIdx <= |path| == k
    ensures Valid(Path(b, start, lastPort, k, pathIdx, path, actIdx, mode))
    decreases |path| - actIdx
  {
    if actIdx < |path| {
      StepValid(b, start, lastPort, k, pathIdx, actIdx, path[actIdx], mode);
      PathValid(Step(b, start, lastPort, k, pathIdx, actIdx, path[actIdx], mode), start, lastPort, k, pathIdx, path, actIdx + 1, mode);
    }
  }

  lemma {:induction false} PathsValid(b: Build, start: nat, lastPort: bool, k: nat, paths: seq<seq<string>>, pathIdx: nat, mode: string)
    requires Valid(b) && start < b.count && pathIdx <= |paths|
    requires forall p :: p in paths ==> |p| == k
    ensures Valid(Paths(b, start, lastPort, k, paths, pathIdx, mode))
    decreases |paths| - pathIdx
  {
    if pathIdx < |paths| {
      assert paths[pathIdx] in paths;
      var b1 := Path(b, start, lastPort, k, pathIdx, paths[pathIdx], 0, mode);
      PathValid(b, start, lastPort, k, pathIdx, paths[pathIdx], 0, mode);
      PathsValid(AfterPath(b1, pathIdx), start, lastPort, k, paths, pathIdx + 1, mode);
    }
  }

  lemma {:induction false} PortsValid(b: Build, ports: seq<string>, i: nat)
    requires Valid(b) && i <= |ports|
    ensures Valid(Ports(b, ports, i))
    decreases |ports| - i
  {
    if i < |ports| {
      var port := ports[i];
      PortPaths(port);
      PathsValid(b, b.src, i == |ports| - 1, |PortActs(port)|, Perms(PortActs(port)), 0, PortMode(port));
      var b1 := Port(b, port, i == |ports| - 1);
      PortsValid(b1.(src := b1.dst), ports, i + 1);
    }
  }

  // ---------------------------------------------------------------------------
  // Edge labels

  /** The labels of a sequence of edges, in order. */
  function Labels(es: seq<Edge<IfaAct>>): (r: seq<IfaAct>)
  {
    seq(|es|, j requires 0 <= j < |es| => es[j].attr)
  }

  /** The label of action `act` under port mode `mode`. */
  function ActLabel(act: string, mode: string): IfaAct
  {
    IfaAct(act + mode, act, mode)
  }

  /** The labels one ordering of a port's actions produces: one per action. */
  function PathLabels(path: seq<string>, mode: string): (r: seq<IfaAct>)
  {
    seq(|path|, j requires 0 <= j < |path| => ActLabel(path[j], mode))
  }

  /** The labels of the orderings `paths[i..]`, one ordering after another. */
  function PathsLabels(paths: seq<seq<string>>, i: nat, mode: string): seq<IfaAct>
    requires i <= |paths|
    decreases |paths| - i
  {
    if i == |paths| then [] else PathLabels(paths[i], mode) + PathsLabels(paths, i + 1, mode)
  }

  /** The labels of one port: every ordering of its actions, in the order
      `itertools.permutations` yields them. */
  function PortLabels(port: string): seq<IfaAct>
  {
    PathsLabels(Perms(PortActs(port)), 0, PortMode(port))
  }

  /** The labels of the ports `ports[i..]`, one port after another. */
  function PortsLabels(ports: seq<string>, i: nat): seq<IfaAct>
    requires i <= |ports|
    decreases |ports| - i
  {
    if i == |ports| then [] else PortLabels(ports[i]) + PortsLabels(ports, i + 1)
  }

  lemma ConcatAssoc<T>(a: seq<T>, b: seq<T>, c: seq<T>)
    ensures a + b + c == a + (b + c)
  {
  }

  lemma LabelsAppend(a: seq<Edge<IfaAct>>, b: seq<Edge<IfaAct>>)
    ensures Labels(a + b) == Labels(a) + Labels(b)
  {
    assert forall j :: 0 <= j < |a + b| ==> Labels(a + b)[j] == (Labels(a) + Labels(b))[j];
  }

  /** The actions `path[actIdx..]` add their labels in order. */
  lemma {:induction false} PathLabelsOf(b: Build, start: nat, lastPort: bool, k: nat, pathIdx: nat, path: seq<string>, actIdx: nat, mode: string)
    requires Sane(b) && start < b.count && actIdx <= |path| == k
    ensures Labels(Path(b, start, lastPort, k, pathIdx, path, actIdx, mode).es) == Labels(b.es) + PathLabels(path[actIdx..], mode)
    decreases |path| - actIdx
  {
    if actIdx < |path| {
      var b1 := Step(b, start, lastPort, k, pathIdx, actIdx, path[actIdx], mode);
      PathLabelsOf(b1, start, lastPort, k, pathIdx, path, actIdx + 1, mode);
      LabelsAppend(b.es, [Edge(b1.src, b1.dst, ActLabel(path[actIdx], mode))]);
      assert PathLabels(path[actIdx..], mode) == [ActLabel(path[actIdx], mode)] + PathLabels(path[actIdx + 1..], mode);
    } else {
      assert PathLabels(path[actIdx..], mode) == [];
    }
  }

  /** The orderings `paths[pathIdx..]` add their labels in order. */
  lemma {:induction false} PathsLabelsOf(b: Build, start: nat, lastPort: bool, k: nat, paths: seq<seq<string>>, pathIdx: nat, mode: string)
    requires Sane(b) && start < b.count && pathIdx <= |paths|
    requires forall p :: p in paths ==> |p| == k
    ensures Labels(Paths(b, start, lastPort, k, paths, pathIdx, mode).es) == Labels(b.es) + PathsLabels(paths, pathIdx, mode)
    decreases |paths| - pathIdx
  {
    if pathIdx < |paths| {
      assert paths[pathIdx] in paths;
      var b1 := Path(b, start, lastPort, k, pathIdx, paths[pathIdx], 0, mode);
      var b2 := AfterPath(b1, pathIdx);
      var r := Paths(b, start, lastPort, k, paths, pathIdx, mode);
      var here, rest := PathLabels(paths[pathIdx], mode), PathsLabels(paths, pathIdx + 1, mode);
      assert Labels(b1.es) == Labels(b.es) + here by {
        PathLabelsOf(b, start, lastPort, k, pathIdx, paths[pathIdx], 0, mode);
        assert paths[pathIdx][0..] == paths[pathIdx];
      }
      assert Labels(r.es) == Labels(b1.es) + rest by {
        assert r == Paths(b2, start, lastPort, k, paths, pathIdx + 1, mode);
        PathsLabelsOf(b2, start, lastPort, k, paths, pathIdx + 1, mode);
      }
      assert PathsLabels(paths, pathIdx, mode) == here + rest;
      ConcatAssoc(Labels(b.es), here, rest);
    }
  }

  /** A port adds its labels in order. */
  lemma PortLabelsOf(b: Build, port: string, lastPort: bool)
    requires Sane(b)
    ensures Labels(Port(b, port, lastPort).es) == Labels(b.es) + PortLabels(port)
  {
    var k, perms := PortUnfold(b, port, lastPort);
    PathsLabelsOf(b, b.src, lastPort, k, perms, 0, PortMode(port));
  }

  /** The ports `ports[i..]` add their labels in order. */
  lemma {:induction false} PortsLabelsOf(b: Build, ports: seq<string>, i: nat)
    requires Sane(b) && i <= |ports|
    ensures Labels(Ports(b, ports, i).es) == Labels(b.es) + PortsLabels(ports, i)
    decreases |ports| - i
  {
    if i < |ports| {
      var b2, n := PortsUnfold(b, ports, i);
      var r := Ports(b, ports, i);
      var here, rest := PortLabels(ports[i]), PortsLabels(ports, i + 1);
      assert Labels(b2.es) == Labels(b.es) + here by {
        PortLabelsOf(b, ports[i], i + 1 == |ports|);
      }
      assert Labels(r.es) == Labels(b2.es) + rest by {
        PortsLabelsOf(b2, ports, i + 1);
      }
      assert PortsLabels(ports, i) == here + rest;
      ConcatAssoc(Labels(b.es), here, rest);
    }
  }

  /** ifa.py `json2igraph`: one vertex to start with, then the ports. */
  function JsonToGraph(ports: seq<string>): (r: IfaGraph)
    ensures |r.vs| > 0 && WellFormed(r)
    ensures |r.es| == PortEdges(ports, 0)
    ensures |ports| > 0 ==> r.es[|r.es| - 1].dst == 0
    ensures Labels(r.es) == PortsLabels(ports, 0)
  {
    var b0 := Build(1, [], 0, 0, 0);
    var b := Ports(b0, ports, 0);
    PortsValid(b0, ports, 0);
    PortsEdges(b0, ports, 0);
    PortsLabelsOf(b0, ports, 0);
    assert |ports| > 0 ==> b.es[|b.es| - 1].dst == 0 by {
      if |ports| > 0 {
        PortsLast(b0, ports, 0);
      }
    }
    Graph(seq(b.count, _ => ()), b.es)
  }
}
