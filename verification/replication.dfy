/** The "independent actions" half of a fold in sa.py and ifa.py: every step
    of one factor is copied once for each state of the other factor, which
    stays where it is.  The step keeps its attributes. */
module Replication {
  import opened Graphs
  import opened ProductIds

  /** The copy of `act` with the other factor held in state `idx`; `left` says
      that `act` belongs to the left factor (so `idx` is the right component). */
  function CopyEdge<A>(n: nat, act: Edge<A>, idx: nat, left: bool): Edge<A>
  {
    if left then Edge(VertexId(n, act.src, idx), VertexId(n, act.dst, idx), act.attr)
    else Edge(VertexId(n, idx, act.src), VertexId(n, idx, act.dst), act.attr)
  }

  /** `for idx in range(lo, hi)`: the copies of one step. */
  function CopiesOf<A>(n: nat, act: Edge<A>, left: bool, lo: nat, hi: nat): (r: seq<Edge<A>>)
    ensures |r| == if lo <= hi then hi - lo else 0
    decreases hi - lo
  {
    if lo >= hi then []
    else [CopyEdge(n, act, lo, left)] + CopiesOf(n, act, left, lo + 1, hi)
  }

  lemma {:induction false} CopiesOfHas<A>(n: nat, act: Edge<A>, left: bool, lo: nat, hi: nat, e: Edge<A>)
    ensures e in CopiesOf(n, act, left, lo, hi) <==> exists idx: nat :: lo <= idx < hi && e == CopyEdge(n, act, idx, left)
    decreases hi - lo
  {
    if lo < hi {
      CopiesOfHas(n, act, left, lo + 1, hi, e);
    }
  }

  /** `for act in es: for idx in range(0, count)`: every step of `es` copied
      over the `count` states of the other factor, step by step. */
  function Replicate<A>(n: nat, count: nat, es: seq<Edge<A>>, left: bool): seq<Edge<A>>
  {
    if |es| == 0 then []
    else CopiesOf(n, es[0], left, 0, count) + Replicate(n, count, es[1..], left)
  }

  /** The copies are exactly the pairs (step, state of the other factor). */
  lemma {:induction false} ReplicateHas<A>(n: nat, count: nat, es: seq<Edge<A>>, left: bool, e: Edge<A>)
    ensures e in Replicate(n, count, es, left) <==>
      exists act, idx: nat :: act in es && idx < count && e == CopyEdge(n, act, idx, left)
  {
    if |es| > 0 {
      ReplicateHas(n, count, es[1..], left, e);
      CopiesOfHas(n, es[0], left, 0, count, e);
      assert forall act :: act in es <==> act == es[0] || act in es[1..];
    }
  }

  /** One copy per (step, state) pair. */
  lemma {:induction false} ReplicateCount<A>(n: nat, count: nat, es: seq<Edge<A>>, left: bool)
    ensures |Replicate(n, count, es, left)| == |es| * count
  {
    if |es| > 0 {
      ReplicateCount(n, count, es[1..], left);
      MulSucc(|es| - 1, count);
    }
  }

  /** The copies of steps between states of an `m`-state left factor (or an
      `n`-state right factor) stay inside the `m * n` product states. */
  lemma ReplicateInRange<A>(m: nat, n: nat, es: seq<Edge<A>>, left: bool)
    requires forall act :: act in es ==> if left then act.src < m && act.dst < m else act.src < n && act.dst < n
    ensures forall e :: e in Replicate(n, if left then n else m, es, left) ==> e.src < m * n && e.dst < m * n
  {
    var count := if left then n else m;
    forall e | e in Replicate(n, count, es, left)
      ensures e.src < m * n && e.dst < m * n
    {
      ReplicateHas(n, count, es, left, e);
      var act, idx: nat :| act in es && idx < count && e == CopyEdge(n, act, idx, left);
      if left {
        VertexIdInRange(m, n, act.src, idx);
        VertexIdInRange(m, n, act.dst, idx);
      } else {
        VertexIdInRange(m, n, idx, act.src);
        VertexIdInRange(m, n, idx, act.dst);
      }
    }
  }
}
