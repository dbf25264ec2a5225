# Synchronous products of labelled automata

This project models the core of a small toolkit for composing labelled
automata and checking the products for blocking and deadlock.  An automaton
is an igraph directed multigraph.  Its edges are actions with a name, a mode
(`?` receive, `!` send, `;` internal) and sometimes a weight (1 = must,
0 = may).  The product ("fold") of two automata with `m` and `n` states has
`m * n` states.  The pair (q, r) is state `n * q + r`.  Shared actions
synchronise into one internal step; the other steps interleave.

The code has three revisions of the product that disagree on policy, and
each is modelled as written:

- `sia.py` (module `Sia`, `SiaCheck`).  `fold` synchronises every
  same-named pair whose name is in an explicit list, without comparing
  modes.  `markBlocking` is a depth-first pass that decides, per subsystem,
  whether a reached product state still offers an action of that subsystem.
  `checkSys` runs four passes and prunes what state 0 does not reach.
- `sa.py` (modules `Sa`, `SaDl`).  The `Automata` class has `a * b`:
  `_isActionShared` classifies a pair and raises on a clash; `_fold` adds
  weight-0 `eps` handshakes; postprocessing prunes what the initial state
  does not reach.  `DlAutomata` adds epsilon insertion before the fold, end
  marking of product states, dead-state (`dl`) marking after it, and the
  index map of `_mergeVertices`.
- `ifa.py` (modules `Ifa`, `IfaJson`).  The earliest product, over
  automata built from JSON port strings by `json2igraph`; clashes are
  printed and skipped, and after every product the states state 0 does not
  reach are deleted.
- `sia2graph/src/sia.c` (module `SiaParse`).  The checks over the parsed
  state list: duplicate state names and transitions to undeclared states;
  every valid transition becomes an edge.

Shared modules: `Results` (Option/Result: Python exceptions and C
"print and skip" become values), `Graphs` (edges, graphs and the igraph
primitives the code relies on, given by meaning: reachability for
`adhesion`, the out-edge list for `incident`, out-degree, and
`delete_vertices` with renumbering), `ProductIds` (the product state
numbering) and `Replication` (the interleaving half of the `sa.py` and
`ifa.py` folds).

The modules disagree on how steps synchronise: `ifa.py` calls a same-named
pair with a `;` step incompatible where `sa.py` ignores it, and `sia.py`'s
`fold` does not compare modes at all.  Each module is modelled as written.

## Model

| member | source | states |
|---|---|---|
| ProductIds.VertexIdDecode | sia.py:22-24 | `(n*q + r) / n == q` and `% n == r` when `r < n`: a product state id gives back both local states |
| ProductIds.VertexIdInRange | sia.py:22-24 | a pair of an m-state and an n-state factor lands in `[0, m*n)` |
| ProductIds.VertexIdInjective | sa.py:84-86 | distinct pairs with right components below `n` get distinct ids |
| ProductIds.VertexIdOnto | sa.py:84-86 | every id below `m*n` is the id of the pair `(v / n, v % n)`, which lies in `[0,m) x [0,n)` |
| ProductIds.DivModUnique | sia.py:22-24 | Euclidean quotient and remainder of `mod*q + r` with `r < mod` are `q` and `r` |
| Graphs.ReachFrom | sa.py:93 | the computed closure holds the source, no edge leaves it and all of it is reachable |
| Graphs.ReachFromExact | ifa.py:148 | a vertex is in the closure exactly when a directed path leads to it (the meaning of `adhesion != 0`) |
| Graphs.Saturate | sa.py:93 | repeated successor steps reach a set closed under edges, all of it reachable from the start |
| Graphs.Successors | sa.py:93 | one breadth step contains the target of every edge leaving the set |
| Graphs.SuccessorsReachable | sa.py:93 | a breadth step from reachable vertices yields only reachable vertices |
| Graphs.ClosedHoldsReachable | ifa.py:148 | a set no edge leaves that holds `s` holds everything `s` reaches |
| Graphs.ReachableStep | sia.py:85-90 | a path extended by an edge is a path |
| Graphs.ReachablePrepend | sia.py:85-90 | an edge followed by a path is a path |
| Graphs.ReachableSubset | sia.py:123-128 | a path over a subset of the edges is a path over all of them |
| Graphs.PathPrefixReachable | ifa.py:144-155 | every vertex of a path is reachable from its first vertex |
| Graphs.IncidentOut | sia.py:85 | `incident(v)` lists each out-edge of `v` exactly once, and nothing else |
| Graphs.IncidentFrom | sia.py:85 | the out-edges of `v` with target in a range, each once, and only those |
| Graphs.EdgesBetween | sia.py:85 | the edge ids from `v` to `t` below `k`, strictly increasing, exactly those |
| Graphs.OutDegree | sa.py:238-239 | the out-degree is the number of edge ids whose edge leaves the vertex: 0 exactly when no edge leaves it, and at most the edge count |
| Graphs.OutIdsSnoc | sa.py:238-239 | one more edge adds its id to the vertex's out-edges exactly when it leaves the vertex |
| Graphs.Rank | ifa.py:155 | the new index of a vertex after deletion is never above the old one |
| Graphs.RankMonotone | ifa.py:155 | surviving vertices keep their relative order after deletion |
| Graphs.RankOnto | ifa.py:155 | every new index below the rank of `n` is the new index of a surviving vertex: no gaps |
| Graphs.KeepVertices | sia.py:128 | the surviving vertex count is the rank of the old count |
| Graphs.KeepVerticesAt | sia.py:128 | a surviving vertex keeps its attributes at its new index |
| Graphs.KeepEdges | sia.py:128 | an edge survives, renumbered, exactly when both its ends survive |
| Graphs.DeleteVertices | sa.py:98 | `delete_vertices`: survivors keep attributes at their rank, and the edges are exactly the renumbered edges between survivors |
| Graphs.DeleteVerticesRenumbers | sa.py:98 | deletion keeps a graph well formed and is order-preserving on survivors |
| Graphs.DeleteVerticesKeepsPaths | ifa.py:144-155 | a path from `s` survives deletion, renumbered, when nothing `s` reaches is deleted |
| Graphs.DeleteUnreachedConnects | ifa.py:144-155 | deleting exactly what `s` does not reach leaves every remaining vertex reachable from the renumbered `s` |
| Replication.CopiesOf | sa.py:68-72 | one copy per index in `[lo, hi)` |
| Replication.CopiesOfHas | sa.py:68-72 | the copies are exactly the step copied with the other factor held at each index of the range |
| Replication.ReplicateHas | sa.py:67-80 | the interleaved steps are exactly the pairs (step, state of the other factor) |
| Replication.ReplicateCount | ifa.py:126-141 | as many copies as steps times `count` |
| Replication.ReplicateInRange | sa.py:67-80 | copies of steps between factor states stay inside the `m*n` product states |
| Sia.Named | sia.py:38-39 | `g.es(name=...)` keeps exactly the edges with that name |
| Sia.Unshared | sia.py:48-49 | exactly the edges whose name is not in the shared list |
| Sia.StrengthZeroIffOnlyMay | sia.py:109-113 | with non-negative weights, out-strength is 0 exactly when every leaving edge is a may edge |
| Sia.PairRow | sia.py:40-45 | one handshake per partner edge |
| Sia.PairRowHas | sia.py:40-45 | the row holds exactly the handshakes of `e1` with each partner |
| Sia.PairStepsHas | sia.py:38-45 | exactly one handshake per pair of `es1 x es2` |
| Sia.PairStepsCount | sia.py:38-45 | as many handshakes as the product of the two edge counts |
| Sia.SharedStepsHas | sia.py:37-45 | the handshakes are exactly the same-named pairs whose name is listed |
| Sia.SharedStepsCount | sia.py:37-45 | per listed name, the product of the two factors' counts of edges with that name |
| Sia.Copies | sia.py:51-57 | one copy per index of the range |
| Sia.CopiesHas | sia.py:51-57 | exactly the copies with the other factor held at each index of the range |
| Sia.IndependentStepsHas | sia.py:48-69 | exactly the unlisted steps of one factor, copied over every state of the other |
| Sia.IndependentStepsCount | sia.py:48-69 | one copy per (unlisted step, state of the other factor) |
| Sia.LastStampDecodes | sia.py:42-45 | the last local pair recorded for a state exists exactly when an edge touches it, and it is the decomposition `(v / n, v % n)` |
| Sia.EdgesOf | sia.py:37-69 | the edges are exactly those of the records, one per record |
| Sia.FoldStampsOk | sia.py:37-69 | every recorded local pair decodes the product state it is recorded for |
| Sia.Fold | sia.py:26-71 | as many states as the product of the factors' state counts, none reached or end, name `g1name + g2name`, every edge between product states |
| Sia.FoldEdgeCount | sia.py:37-69 | one edge per listed same-named pair, plus one copy per (unlisted step, state of the other factor) |
| Sia.FoldStatesDecode | sia.py:42-45 | a touched state's `states` maps the two factor names to `v / n` and `v % n`, `n` the right factor's state count; an untouched state has none |
| Sia.FoldEdgesExact | sia.py:37-69 | the edges are exactly the `;` weight-1 handshakes owned by both factors (modes not compared) and the unlisted steps of either factor with the other held fixed |
| Sia.HandshakeStamps | sia.py:37-45 | an edge comes from a handshake record exactly when it is a listed same-named handshake |
| Sia.IndependentStamps | sia.py:48-69 | an edge comes from a copy record exactly when it is an unlisted step copied with the other factor fixed |
| SiaCheck.PreProgress | sia.py:109-113 | keeps the name, the edges and the state count |
| SiaCheck.PreProgressEnd | sia.py:109-113 | a state is an end state exactly when every step leaving it is a may step, and no state starts blocked |
| SiaCheck.LocalIndex | sia.py:92-96 | a local-state lookup that succeeds names a state of the subsystem |
| SiaCheck.Followed | sia.py:86-87 | a pass follows exactly the edges it may use: all of them, or in a must pass the weight-1 ones |
| SiaCheck.FollowedMay | sia.py:105-107 | a may pass follows every edge |
| SiaCheck.Check | sia.py:92-98 | the block flag only goes from False to True, and only for this subsystem; it is set at a state with no action left (out-strength 0, or no action of the subsystem seen) whose local state is not an end state; every line it prints is about this state and only under that condition; a must pass prints that state, and a failed lookup is the first fault |
| SiaCheck.GrowsRefl | sia.py:79-99 | doing nothing satisfies the growth contract of `markBlocking` |
| SiaCheck.GrowsTrans | sia.py:79-99 | two growth steps compose into one |
| SiaCheck.PrependAll | sia.py:85-90 | what the target of a followed edge reaches, its source reaches |
| SiaCheck.MarkBlocking | sia.py:79-99 | an already-reached vertex returns False unchanged; otherwise the newly reached states are exactly those the vertex reaches along followed edges, flags only grow, and `hasAction` is True when an action of the subsystem is seen |
| SiaCheck.VisitVertex | sia.py:81-98 | the edge loop and the check of a newly reached vertex give the contract of `markBlocking` |
| SiaCheck.MarkEdges | sia.py:85-90 | the loop over the out-edges keeps the growth contract and visits every followed target |
| SiaCheck.SkippedEdge | sia.py:86-87 | an edge a must pass skips changes nothing |
| SiaCheck.FollowedEdge | sia.py:88-90 | a followed edge's depth-first call and the rest of the loop give the loop contract |
| SiaCheck.ActsInSub | sia.py:89-90 | an action of the subsystem seen in a set is seen in any larger set |
| SiaCheck.FinishHas | sia.py:89-90 | an action of the subsystem on a followed edge out of the vertex sets `hasAction` |
| SiaCheck.FinishVertex | sia.py:81-98 | marking, exploring and checking a vertex compose into the `markBlocking` contract |
| SiaCheck.GrowsStep | sia.py:81-98 | the three phases of a visit compose into one growth step |
| SiaCheck.MarkPass | sia.py:101-107 | after clearing `reach`, one pass reaches exactly the states the start reaches along followed edges |
| SiaCheck.ReachExact | sia.py:101-107 | a set that holds the start, is closed under followed edges and is reachable is exactly the reachable set |
| SiaCheck.Labelled | sia.py:118-132 | keeps the name, edges, state count and `states` of the product |
| SiaCheck.UnreachedIs | sia.py:128 | the unreached states are the complement of the reached set |
| SiaCheck.FourPasses | sia.py:123-127 | after the last pass, `reach` is exactly what state 0 reaches; every printed line is about a reachable state where a subsystem is in a non-end local state and either nothing leaves the state or no weight-1 edge out of it carries an action of that subsystem; every stuck state reachable along weight-1 edges is printed unless a lookup fails, and a failed lookup is at a reachable state; a subsystem stuck at any reachable state is flagged as blocking |
| SiaCheck.CheckSys | sia.py:116-133 | fails with `EmptyProduct` exactly on an empty product, and with `MissingLocalState` only at a reachable state whose lookup fails; otherwise the result is the fold with exactly the states unreachable from 0 deleted; every printed line meets the print condition of sia.py:94-96, and every stuck state reachable along weight-1 edges is printed for both subsystems |
| SiaCheck.PassReports | sia.py:123-127 | a pass keeps earlier lines, adds only sound ones, and a new fault is at a reachable state with a failed lookup |
| SiaCheck.PassComplete | sia.py:101-103 | a must pass from state 0 prints every stuck state it reaches |
| SiaCheck.CompleteKept | sia.py:123-127 | completeness of the report survives later lines |
| SiaCheck.CheckSysFacts | sia.py:123-128 | the four passes chained give soundness, completeness, the fault location and the blocking flags |
| Sa.IsActionShared | sa.py:114-124 | True exactly for the same name with modes `?`/`!` in either order; raises exactly for the same name with other modes, neither of them `;` |
| Sa.IsActionSharedSymmetric | sa.py:114-124 | the classification does not depend on the order of the pair, and a `;` step never synchronises or clashes |
| Sa.SharedNamesRow | sa.py:38-41 | succeeds exactly when no partner clashes, else raises on the first clashing partner in list order; adds the step's name when some partner synchronises, keeping the list duplicate-free |
| Sa.FirstClashInNext | sa.py:38-41 | a clash found first after a non-clashing head is the first clash of the whole row |
| Sa.SharedNamesFrom | sa.py:37-43 | succeeds exactly without clashes, else raises on the first clashing pair in loop order (left steps outside, right steps inside); the names are the starting ones plus the synchronising ones, duplicate-free |
| Sa.FirstClashNext | sa.py:37-43 | a clash found first after a clash-free first row is the first clash in loop order |
| Sa.GetSharedNames | sa.py:35-43 | raises exactly on a clash, on the first clashing pair in loop order; otherwise a duplicate-free list of exactly the names of synchronising pairs |
| Sa.FoldPreprocess | sa.py:100-112 | as many states as the product of the factors' state counts, all reached, no edges |
| Sa.FoldPreprocessInit | sa.py:106-111 | the state of the pair (i, j) is initial exactly when both i and j are |
| Sa.FoldPreprocessHasInit | sa.py:106-111 | the product has an initial state exactly when both factors do |
| Sa.InitPairSplits | sa.py:106-111 | an initial product state comes from initial states of both factors |
| Sa.EpsRow | sa.py:53-57 | succeeds exactly when no partner clashes, else raises on the first clashing partner in list order |
| Sa.EpsRowHas | sa.py:53-57 | one `eps` step per synchronising partner, and nothing else |
| Sa.EpsRowCount | sa.py:53-57 | as many `eps` steps as synchronising partners |
| Sa.EpsEdges | sa.py:52-59 | succeeds exactly when no pair clashes, else raises on the first clashing pair in loop order |
| Sa.EpsEdgesHas | sa.py:52-59 | the handshakes are exactly the `eps` steps (mode `;`, weight 0) of synchronising pairs |
| Sa.EpsEdgesCount | sa.py:52-59 | one handshake per synchronising pair |
| Sa.Unmatched1 | sa.py:63 | the left steps left after `delete_edges` are exactly those with no synchronising partner |
| Sa.Unmatched2 | sa.py:64 | the right steps left are exactly those with no synchronising partner |
| Sa.FoldEdges | sa.py:45-82 | `_fold` raises exactly on a clash of the factors, on the first clashing pair in loop order |
| Sa.FoldEdgesExact | sa.py:45-82 | the edges are exactly the handshakes plus the unmatched steps of each factor copied over every state of the other |
| Sa.FoldEdgesCount | sa.py:45-82 | one edge per synchronising pair plus one per (unmatched step, other state) |
| Sa.FoldEdgesInRange | sa.py:45-82 | every product edge joins product states |
| Sa.FirstInit | sa.py:91 | `vs.find(init=True)`: the first initial state, or none when there is no initial state |
| Sa.FoldPostprocess | sa.py:88-98 | raises exactly when there is no initial state; otherwise deletes exactly the states already unreached and the non-initial states the first initial state cannot reach |
| Sa.PostprocessRooted | sa.py:88-98 | when every state was reached before, the first initial state survives, renumbered and still initial, and reaches every surviving non-initial state |
| Sa.Product | sa.py:22-30 | raises `Incompatible` exactly on a clash, `NoInitialState` exactly when there is no clash and a factor has no initial state; otherwise the product is named `fold`, is the postprocessed fold of the preprocessed states, and has an initial state reaching every non-initial state |
| SaDl.DlFoldPreprocess | sa.py:242-253 | the base preprocessing with `dl` cleared: same initial states, no edges |
| SaDl.DlFoldPreprocessMarks | sa.py:242-253 | the pair (i, j) is an end state exactly when both are, and initial exactly when both are |
| SaDl.Listed | sa.py:175-177 | keeps exactly the incident edges whose name is shared, duplicate-free |
| SaDl.CollectedAt | sa.py:174-177 | what is collected at `v` are distinct out-edges of `v` |
| SaDl.CollectedAtHas | sa.py:174-177 | collected at `v` are exactly the shared-name out-edges of `v` when `v` has out-degree above 1 |
| SaDl.Candidates | sa.py:173-177 | the collected edges are distinct and leave states from `v` on |
| SaDl.CandidatesNone | sa.py:173-177 | nothing is collected past the last state |
| SaDl.CandidatesStep | sa.py:174-177 | one state more of the outer loop collects exactly its delayed out-edges |
| SaDl.CandidatesHas | sa.py:173-177 | collected are exactly the shared-name steps leaving a state with more than one out-edge |
| SaDl.Detours | sa.py:179-183 | two steps per collected edge; exactly the detours through the fresh states |
| SaDl.Without | sa.py:185 | `delete_edges`: exactly the edges whose ids are not collected |
| SaDl.WithoutCount | sa.py:185 | the kept count is the edge count minus the collected ids in range |
| SaDl.DistinctBelow | sa.py:185 | distinct collected ids below the edge count number exactly as many ids are deleted |
| SaDl.EpsilonInsert | sa.py:172-185 | one fresh (reached, not initial, not end, not dead) state per collected edge, the old states unchanged |
| SaDl.EpsilonInsertEdges | sa.py:172-185 | the steps are exactly the uncollected originals and, for the k-th collected step, an `eps` into the k-th fresh state and the step with weight 1 out of it |
| SaDl.EpsilonInsertCount | sa.py:172-185 | one state and one edge more per collected step |
| SaDl.EpsilonInsertOrigin | sa.py:172-185 | every step afterwards is an original or belongs to the detour of one through a fresh state |
| SaDl.KeptOrigin | sa.py:185 | a kept step is an original step |
| SaDl.DetourOrigin | sa.py:179-183 | a detour step comes from a collected original through one of the fresh states |
| SaDl.EpsilonInsertEdgeInRange | sa.py:179-183 | every step afterwards joins existing states |
| SaDl.EpsilonInsertWellFormed | sa.py:172-185 | epsilon insertion keeps the graph well formed |
| SaDl.DetourLabel | sa.py:182-183 | a detour step is `eps` or keeps the delayed step's name and mode |
| SaDl.EpsilonInsertLabelFrom | sa.py:172-185 | every step afterwards is `eps` or carries the name and mode of an original step |
| SaDl.EpsilonInsertLabelKept | sa.py:172-185 | every original name and mode survive |
| SaDl.IsActionSharedIgnoresWeight | sa.py:114-124 | the classification ignores weights |
| SaDl.EpsilonInsertNoClash | sa.py:162-165 | the factors after epsilon insertion clash exactly when the originals do |
| SaDl.EpsilonInsertHasInit | sa.py:181 | epsilon insertion adds no initial state and keeps the old ones |
| SaDl.DlMark | sa.py:238-239 | only `dl` changes, and it is set exactly on out-degree-0 states that are not end states or are both end and initial |
| SaDl.CountDlPositive | sa.py:266-267 | the count of `dl` states is positive exactly when some state is `dl` |
| SaDl.IsDeadlocking | sa.py:264-267 | True exactly when some state is marked `dl` |
| SaDl.MergeMap | sa.py:209-216 | raises exactly when a vertex is out of range; otherwise the map sends the larger vertex onto the smaller, fixes those below it and shifts those above it down |
| SaDl.MergedContracts | sa.py:209-216 | for two different vertices the map identifies exactly those two and is onto `[0, n-1)` |
| SaDl.MergedSelf | sa.py:210-214 | with the same vertex twice, the map merges it with the next vertex |
| SaDl.PostprocessKeepsNoDl | sa.py:236 | pruning sets no `dl` flag |
| SaDl.DlFold | sa.py:158-167 | raises exactly on a clash of the original factors; otherwise every state is reached and none is `dl`, and there is an initial state exactly when both factors have one |
| SaDl.DlFoldHasInit | sa.py:164-166 | after epsilon insertion the preprocessed product has an initial state exactly when both originals do |
| SaDl.NoInitSplits | sa.py:91 | a product without initial state means a factor without one, and conversely |
| SaDl.DlProduct | sa.py:158-170 | raises exactly as the base product; on success it is the shared names, epsilon insertion, fold, postprocessing and deadlock marking applied in turn, named `fold`, with `dl` set exactly on the dead states and an initial state reaching every non-initial state |
| SaDl.DlMarkExact | sa.py:238-239 | on a graph with no `dl` flag yet, marking sets `dl` exactly on the dead states |
| SaDl.DlMarkRooted | sa.py:234-239 | postprocessing a fold whose states are all reached, then marking deadlocks, leaves an initial state reaching every non-initial state |
| SaDl.DlMarkKeepsRooted | sa.py:237-239 | marking deadlocks keeps the initial states and the edges, so a rooted graph stays rooted |
| Ifa.IsActionShared | ifa.py:73-84 | `Shared` exactly for the same name with modes `?`/`!`; `Incompatible` exactly for the same name with any other modes |
| Ifa.IsActionSharedAgrees | ifa.py:73-84 | the verdict is symmetric; it synchronises as `sa.py` does, and it is incompatible without `;` exactly where `sa.py` raises |
| Ifa.AddActShared | ifa.py:86-92 | the step is labelled `name;`, named after the first step, with mode `;` |
| Ifa.AddActSharedDecode | ifa.py:86-92 | the ends of the `;` step decode back to the ends of the pair |
| Ifa.SharedRowHas | ifa.py:112-119 | the row holds exactly one `;` step per synchronising partner |
| Ifa.SharedEdgesHas | ifa.py:110-119 | exactly one `;` step per synchronising pair |
| Ifa.Unmatched | ifa.py:121-122 | after `delete_edges`, exactly the steps with no synchronising partner |
| Ifa.Fold | ifa.py:104-141 | as many states as the product of the factors' state counts |
| Ifa.FoldExact | ifa.py:110-141 | the steps are exactly the `;` steps of synchronising pairs and the unmatched steps of either factor with the other held fixed |
| Ifa.FoldWellFormed | ifa.py:104-141 | the product's steps join product states |
| Ifa.ComplaintsHas | ifa.py:76-82 | one complaint per same-named pair that does not synchronise, naming their labels, and no other |
| Ifa.ComplaintsRowHas | ifa.py:76-82 | the complaints of one step are exactly its same-named partners that do not synchronise |
| Ifa.ProdStep | ifa.py:104-155 | one round is the product with exactly the states unreachable from 0 deleted, and it is not empty |
| Ifa.ProdStepConnected | ifa.py:144-155 | after pruning the product is well formed and state 0 reaches every state |
| Ifa.ProdStepEdges | ifa.py:144-155 | a pruned step is exactly a product step between two states state 0 reaches, renumbered |
| Ifa.ProdFrom | ifa.py:99-157 | the loop never produces an empty graph |
| Ifa.ProdFromConnected | ifa.py:99-157 | the loop keeps the product well formed, and connected from 0 once a round has run |
| Ifa.IfaProd | ifa.py:94-159 | fails exactly with fewer than two descriptions (`g_new` unbound); otherwise a non-empty graph |
| Ifa.IfaProdConnected | ifa.py:94-159 | the product is well formed and state 0 reaches every state |
| IfaJson.Split | ifa.py:35 | `split('&')` gives at least one piece and no piece holds the separator |
| IfaJson.SplitJoin | ifa.py:35 | joining the pieces gives the string back |
| IfaJson.SplitNone | ifa.py:35 | a string without separators splits into itself |
| IfaJson.PortMode | ifa.py:33-34 | the mode is the last character (empty for an empty port), and the port is its actions followed by the mode |
| IfaJson.Prepend | ifa.py:35 | puts the element in front of every ordering |
| IfaJson.Drop | ifa.py:35 | removes exactly one occurrence of the dropped element |
| IfaJson.PermsCount | ifa.py:35 | `itertools.permutations` of `k` elements gives `k!` orderings |
| IfaJson.PermsFromCount | ifa.py:35 | the orderings starting with positions `i..` number `(k - i) * (k-1)!` |
| IfaJson.PermsArrange | ifa.py:35 | each ordering is a rearrangement of all the elements |
| IfaJson.PermsFromArrange | ifa.py:35 | the same for the orderings from position `i` on |
| IfaJson.PrependArrange | ifa.py:35 | putting an element in front of rearrangements of the others gives rearrangements of all |
| IfaJson.PermsLength | ifa.py:35 | every ordering has the length of the sequence |
| IfaJson.Step | ifa.py:42-64 | one edge `action+mode` per action; the last action of the last port goes back to state 0 |
| IfaJson.Path | ifa.py:41-64 | one edge per action; the path's last edge leads to where it ends, which is 0 on the last port |
| IfaJson.Paths | ifa.py:40-69 | every ordering adds `k` edges; on the last port the paths end in state 0 |
| IfaJson.PathsUnfold | ifa.py:40-69 | the paths are the first path, adding `k` edges and ending where it leads, then the rest |
| IfaJson.PathsLast | ifa.py:61-69 | the last edge of the paths leads to where they end |
| IfaJson.PathsCount | ifa.py:40-69 | each ordering adds one edge per action |
| IfaJson.PortActs | ifa.py:35 | a port has at least one action |
| IfaJson.PortPaths | ifa.py:35 | every ordering of a port's actions has all of them |
| IfaJson.Port | ifa.py:31-69 | a port keeps the builder sane; the last port ends in state 0 |
| IfaJson.PortUnfold | ifa.py:31-69 | a port is all `k!` orderings of its `k > 0` actions from where the previous port ended |
| IfaJson.PortEdgesOf | ifa.py:35-64 | a port with `k` actions adds `k * k!` edges |
| IfaJson.PortLast | ifa.py:61-69 | a port adds edges, the last one leading to where the port ends |
| IfaJson.Ports | ifa.py:31-69 | the ports keep the builder sane |
| IfaJson.PortsEdges | ifa.py:31-69 | the ports add `k * k!` edges each |
| IfaJson.PortsLast | ifa.py:49-52 | the last edge of the last port returns to state 0 |
| IfaJson.PortsUnfold | ifa.py:31-69 | the ports are the first port, adding a positive number of edges, then the rest |
| IfaJson.StepValid | ifa.py:53-64 | an action's edge joins existing vertices |
| IfaJson.PathValid | ifa.py:41-64 | a path's edges join existing vertices |
| IfaJson.PathsValid | ifa.py:40-69 | the paths' edges join existing vertices |
| IfaJson.PortsValid | ifa.py:31-69 | the ports' edges join existing vertices |
| IfaJson.PathLabelsOf | ifa.py:42-64 | each action of an ordering adds one edge labelled `act + mode`, name `act` and the port mode, in order |
| IfaJson.PathsLabelsOf | ifa.py:40-69 | the orderings add their labels one ordering after another |
| IfaJson.PortLabelsOf | ifa.py:31-69 | a port adds the labels of every ordering of its actions, one ordering after another |
| IfaJson.PortsLabelsOf | ifa.py:31-69 | the ports add their labels port by port |
| IfaJson.JsonToGraph | ifa.py:24-71 | a well-formed graph with at least one state, `k * k!` edges per port of `k` actions, the last edge back to state 0; the edge labels, in edge order, are port by port every ordering of the port's actions in `permutations` order, each action labelled `act + mode` with its name and mode |
| SiaParse.Add | sia2graph/src/sia.c:25-31 | the new cell holds the element in front of the old list |
| SiaParse.Reversed | sia2graph/src/sia.c:43-49 | reversal keeps the length |
| SiaParse.AddAllReverses | sia2graph/src/sia.c:43-49 | a list built by prepending holds its elements in reverse order of addition |
| SiaParse.Declared | sia2graph/src/sia.c:57-64 | at most one declared name per definition |
| SiaParse.DeclaredHas | sia2graph/src/sia.c:57-64 | a name is declared exactly when some definition has it |
| SiaParse.DeclaredSplits | sia2graph/src/sia.c:57-69 | every definition is declared or reported, and the declared names are distinct |
| SiaParse.DistinctCard | sia2graph/src/sia.c:60-64 | a duplicate-free list has as many elements as its set |
| SiaParse.DeclaredCount | sia2graph/src/sia.c:60-64 | the vertex count is the number of distinct state names |
| SiaParse.CheckDuplicate | sia2graph/src/sia.c:52-70 | the labels are the first-seen names in list order, ids 0, 1, 2, …; redefinitions are reported and add nothing; each first definition's transitions are kept under its name |
| SiaParse.DeclareStep | sia2graph/src/sia.c:58-64 | a new name gets the next id and keeps its transitions |
| SiaParse.TableExtend | sia2graph/src/sia.c:60-64 | a new key gets the next id and the table still matches the labels |
| SiaParse.KeepTargets | sia2graph/src/sia.c:60-64 | adding a first definition keeps the transitions stored before |
| SiaParse.RedefineStep | sia2graph/src/sia.c:66-67 | a redefinition is reported and changes nothing else |
| SiaParse.SkipTargets | sia2graph/src/sia.c:66-67 | a redefinition adds no transitions |
| SiaParse.StateEdges | sia2graph/src/sia.c:84-100 | at most one edge per transition |
| SiaParse.StateSplits | sia2graph/src/sia.c:84-100 | every transition gives an edge or a report |
| SiaParse.AllSplits | sia2graph/src/sia.c:82-101 | over all states, edges plus reports equal transitions |
| SiaParse.StateEdgesHas | sia2graph/src/sia.c:92-99 | the edges of a state are exactly its transitions to declared states, from its id to theirs |
| SiaParse.StateMissesHas | sia2graph/src/sia.c:86-91 | the reports of a state are exactly its undeclared targets |
| SiaParse.AllEdgesHas | sia2graph/src/sia.c:82-101 | the edges of the first `k` visited states are exactly their transitions to declared states |
| SiaParse.AllMissesHas | sia2graph/src/sia.c:82-101 | the reports of the first `k` visited states are exactly their undeclared targets |
| SiaParse.AllExact | sia2graph/src/sia.c:82-101 | over the whole table, edges are exactly the linked transitions and reports exactly the dangling targets |
| SiaParse.StateStep | sia2graph/src/sia.c:84-100 | one more transition adds its edge or its report |
| SiaParse.CheckTargets | sia2graph/src/sia.c:84-100 | the inner loop yields the state's edges and undeclared targets in order |
| SiaParse.CheckUndefined | sia2graph/src/sia.c:73-103 | in any iteration order: edges join ids below the vertex count, are exactly the transitions between declared states, reports are exactly the undeclared targets, one of the two per transition; with multiplicity and order they are those of visiting the states in `order`, each state's transitions in list order |
| SiaParse.LinkedInRange | sia2graph/src/sia.c:92-94 | an edge of a transition joins ids below the vertex count |
| SiaParse.LinkedFromDefinition | sia2graph/src/sia.c:82 | an edge comes from a transition of a first definition |
| SiaParse.DefinitionLinked | sia2graph/src/sia.c:82 | every transition of a first definition to a declared name is an edge |
| SiaParse.SiaToGraph | sia2graph/main.c:89-91 | the graph has one vertex per distinct name, distinct labels, vertices plus redefinitions equal definitions; its edges are exactly the transitions of first definitions to declared states and `undeclared` exactly the undeclared names first definitions target, both with multiplicity those of the symbol table visited in `order` |
| SiaParse.CheckedExact | sia2graph/src/sia.c:82-101 | over the table the duplicate check built, the edges and reports are described by the first definitions alone |
| SiaParse.DanglingUndeclared | sia2graph/src/sia.c:86-91 | a dangling target of the table is exactly a name no definition declares that a first definition targets |
| SiaParse.FirstDefinition | sia2graph/src/sia.c:57-64 | every defined name has a first definition |

## Left out

- Plotting and console output (`plot`, `_plotInit`, the debug prints): no behaviour to model.  `printError` lines are modelled as `SiaCheck.Report` data, and the `ifa.py` "incompatible" message as `Ifa.Complaints`.
- Ifa.IfaProd: does not collect the incompatibility messages; `Ifa.ComplaintsHas` states them per product round.
- `_epsilonReduce` and `_mergeVerticesArray` (sa.py:187-207, sa.py:218-231): they depend on igraph's `contract_vertices` with summed attributes.  Only the index map of `_mergeVertices` is modelled (`SaDl.MergeMap`); the contraction itself is not.
- SaDl.DlProduct: stops after the dead-state marking; the final `_epsilonReduce` (sa.py:240) is not applied.
- `StreamDlAutomata` and `_addQueueSemantics` (sa.py:270 onwards): queue semantics built on vertex contraction.
- `ifa.py` `main` and the JSON file read (ifa.py:18-22); the model starts from the decoded list of port strings.
- The command-line front ends (`sia2graph/main.c` apart from the three check calls, `check_sia.py`), GraphML/GML reading and writing, the bison parser, `setup.py` and the test scripts.  The tests drive functions that `sia.py` does not define, so they are not used as contracts.
- `sia2graph/include/sia.h` is not part of this model.  Its declarations do not match `sia.c`, and field names are taken from `sia.c`.
- C memory handling in `sia.c`: heap-allocated linked cells become immutable lists.  `sia_create_target` and `sia_create_vertex` are datatype constructors (`SiaParse.Target`, `SiaParse.Vertex`).
- The mode passed to igraph as `&mode` (sia2graph/src/sia.c:95) is not NUL-terminated in C.  It is modelled as the single mode character.
- The uthash iteration order of `sia_check_undefined` is a parameter (`order`): any duplicate-free listing of the table's keys.  Edge order is not committed to.
- igraph's own errors (an edge to a missing vertex, a missing attribute) are ruled out by well-formedness preconditions rather than modelled.
- Ifa.ProdStep: requires both factors to be non-empty, which `ifaProd` always ensures (every `json2igraph` graph has state 0).
- `json2igraph` tests `act_idx` and `path_idx` with `is 0` (CPython small-int identity); this is modelled as `== 0`.
- The base `Automata` product does not set `end` or `dl` in Python.  The model gives every state both fields, False in the base product.
- `sia.py` `markBlocking` raises (`TypeError`/`KeyError`/`IndexError`) when a reached state has no `states` entry for a subsystem.  That is modelled as `SiaError.MissingLocalState` at the first such state, and an empty product's `g.vs[0]` as `EmptyProduct`.
- Weights are integers (0 or 1 in the source); there is no floating point.
- SiaCheck.FourPasses: completeness covers the stuck states reachable from state 0 along weight-1 edges, which the must passes visit.  A stuck state reached only through a weight-0 edge is printed by the may pass only while the subsystem is not yet blocked, so it is not promised.
- SiaCheck.CheckSys: the same completeness bound as `SiaCheck.FourPasses`.
- SiaCheck.CheckSys: CPython's default recursion limit (about 1000 frames) makes `markBlocking` raise `RuntimeError` on a depth-first path that long.  The model's recursion is unbounded.
- SiaCheck.CheckSys: `Err(MissingLocalState)` carries no lines, although the source has already printed the lines before the failed lookup.
- SiaCheck.CheckSys: `preProgress` (sia.py:109-113) sets `end`, `block` and `strength` on the caller's `g1` and `g2` in place (sia.py:120-121).  The model computes `SiaCheck.PreProgress` as a new value and leaves the inputs unchanged.
