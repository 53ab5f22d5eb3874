# Verified model of RAPx's analysis engines

RAPx analyses Rust MIR. This project models the engines of its analyses whose correctness
does not depend on the compiler: control-flow condensation and path enumeration, the
meet-over-paths (MoP) alias analysis, SafeDrop's liveness, rCanary's ownership flow and the
type keys of the API dependency graph. Everything the compiler supplies (bodies, types, drop
flags, layouts, constants) is an input.

| module | engine |
|---|---|
| `Wrappers` | a value or nothing |
| `Digraph`, `Scc`, `Paths` | Tarjan's algorithm with in-place rewriting of successor sets, and the enumeration of maximal paths |
| `UnionFind`, `Arena`, `MergeTrees`, `MergeRuns`, `AliasGraph` | parent array, arena of field trees, structural merge, runs of its recursion, one block of assignments, replay of summaries |
| `Summary` | extraction of a summary from a leaf state, and the trip from callee to caller |
| `Explorer`, `SubBlocks`, `Interprocedural` | the restoring path search, what it makes of sub-block orders, and the recursion through callees |
| `Liveness` | search for dead values, kills, rebirths, double frees over runs |
| `TopoOrder`, `BitVectors`, `Constraints`, `Balance`, `Join` | block order, bit tricks, symbolic ownership constraints, their balance, joins |
| `Shapes`, `Holdings`, `Steps`, `Ownership` | what the handlers decide without solving, the ownership bits themselves, the agreement of constraints and bits, the handlers |
| `TypeKeys` | lifetime-insensitive equality, hashing, labels and the node table |

Objects that the analyser updates in place are classes whose methods state the new state in
terms of the old one; code that only computes is functions and lemmas. Iteration over hash
sets and maps is in arbitrary order. `dafny verify dfyconfig.toml` checks the project.

## Findings about the code

Where a promise fails, the model keeps the code as it is, states the exact condition for all
inputs and gives an input at which it fails.

- A discriminant link `alias_set[lv] = rv` closes a cycle of parents, on which `union_find`
  never returns, exactly when the search from `rv` passes `lv` (`UnionFind.LinkAcyclic`; on a
  flat array, when `lv` is the root of `rv`, `UnionFind.FlatLink`). Two assignments in a fresh
  arena get there, `_1 = Some(move _0)` and `(*_0) = discriminant(_1)`
  (`AliasGraph.LoopingLinkReached`).
- `get_field_seq` names the node exactly down to depth one (`Summary.FieldSeqExact`); two fields
  down it names a place that is not there (`Summary.DepthTwoMisnamed`). It re-reads the same
  father and would loop on a father with a field number (`Summary.FieldSeqEndsIff`), but under the
  arena invariant fathers are locals and it always ends (`Summary.FieldSeqEnds`).
- `merge` gives a created left field the argument's value index as its local; fields then share
  their parent's local exactly when the argument is a whole local or nothing is created
  (`Summary.LeftWalkShares`); a field as argument breaks it (`Summary.FieldArgumentBreaksLocal`).
- `merge_alias` ends if and only if the left node does not lie strictly below the right one
  (`MergeRuns.MergeEndsIff`); the guard of `alias_bb` excludes the bad case, the call for callees
  without a body does not.
- `check` returns in the first round of its order loop when a component has at most one
  successor, so its sub-block orders make no difference (`SubBlocks.OrdersIgnored`) and what they
  would contribute is found only by accident (`SubBlocks.OrderExploredIff`); a loop behind the
  entry with no exit or one loses what its second block records (`SubBlocks.SubBlockSkipped`).
- `query_mop` drops the result of the function it analyses: the cache only ever holds summaries of
  functions that are called (`Interprocedural.Analysis.Query`).
- `dead_node` kills the aliases of a field-free value exactly when it is not the root of its class
  (`Liveness.SafeDrop.DropFieldFree`); the alias of a dropped root lives on
  (`Liveness.RootDropSparesAlias`).
- Nothing but the restored state of a branch clears `dead_record`, so a drop kills exactly the
  values that were not dropped before (`Liveness.DropKillsIff`), and two drops of the only value
  of a local are reported exactly when the first one kills (`Liveness.DoubleDropReportedIff`): a
  value dropped, assigned again and dropped twice more is not
  (`Liveness.RebornDoubleFreeMissed`), nor ever after (`Liveness.RecordedNeverReported`).
- `topo_order` emits exactly the reachable blocks if and only if the reachable part is acyclic
  and its predecessors are reachable (`TopoOrder.EmitsReachableIff`); a loop behind the entry is
  left out (`TopoOrder.LoopCutShort`).
- `rustbv_to_int` overflows exactly from 64 bits on, although 64 bits fit the result
  (`BitVectors.RustBvToInt`).
- rCanary never fills in the layout entry of an argument, and no later operation does
  (`Shapes.LayoutStays`). A local drops as a whole or not at all exactly when it has no layout
  (`Balance.LayoutlessIff`), so a whole drop of an argument clears all its bits and a field drop
  none (`Ownership.Analysis.DropArgumentLater`, `Balance.ArgumentDrops`).
- A field assignment into an argument or the return place overwrites the old bit without a
  constraint; the balance counts it as lost (`Ownership.Analysis.PrepareField`).
- `hash_ty` tells types apart exactly as `eq_ty` does as long as there are no tuples
  (`TypeKeys.HashExact`); tuple lengths are not hashed (`TypeKeys.TuplesCollide`).
- `eq_ty` compares generic arguments only as far as the shorter list goes; it is equality up to
  erasure exactly when no list is cut off (`TypeKeys.ErasedEqualIff`). The compiler gives all
  instances of a definition the same number of arguments, so on its types the equality is sound
  (`TypeKeys.EqIsErasedEquality`); the failing inputs of `TypeKeys.CutOffIsNotTransitive` are none
  it supplies.

## Model

| member | source | states |
|---|---|---|
| `Scc.Condenser.constructor` | rapx/src/analysis/core/alias/mop/graph.rs:440-456 | the initial block table: every block is its own representative, without sub-blocks |
| `Scc.Condenser.SolveScc` | rapx/src/analysis/core/alias/mop/graph.rs:544-551 | for every graph without an edge into block 0: two reached blocks have one representative iff each reaches the other in the original graph, the representative is the first-discovered member, its `next` is exactly the original successors of the component outside it, its sub-blocks are the other members once each by discovery number, and every other block is untouched |
| `Scc.Condenser.Tarjan` | rapx/src/analysis/core/alias/mop/graph.rs:458-542 | one call keeps the traversal invariant (stack, low-links, finished components closed and maximal, table rewritten only at finished representatives), ends, and leaves `index` either finished or on the stack with its low-link witnessed and bounding all edges above it |
| `Scc.Condenser.Open` | rapx/src/analysis/core/alias/mop/graph.rs:467-471 | numbering and pushing a block starts its visit and keeps the invariant with the block open |
| `Scc.Condenser.FollowEdges` | rapx/src/analysis/core/alias/mop/graph.rs:472-480 | after the edge loop, in any order of the successor set, every successor is discovered and the low-link accounts for all of them |
| `Scc.Condenser.FollowEdge` | rapx/src/analysis/core/alias/mop/graph.rs:474-479 | one edge, to a new block, to a block on the stack or to a finished one, extends that account |
| `Scc.Condenser.Close` | rapx/src/analysis/core/alias/mop/graph.rs:481-541 | a block whose low-link equals its number closes a component and otherwise stays open; either way the visit is complete |
| `Scc.Condenser.PopComponent` | rapx/src/analysis/core/alias/mop/graph.rs:487-540 | popping down to the root collapses exactly the stack segment above it: representative, joined successors without inner ones, sub-blocks reversed into discovery order |
| `Scc.SegmentClosed` | rapx/src/analysis/core/alias/mop/graph.rs:482-540 | no edge leaves the stack segment of a root except into finished components |
| `Scc.SegmentMutual` | rapx/src/analysis/core/alias/mop/graph.rs:482-540 | every block of that segment and its root reach each other |
| `Scc.Collapses` | rapx/src/analysis/core/alias/mop/graph.rs:482-540 | collapsing a root's segment re-establishes the whole invariant |
| `Scc.StaysOpen` | rapx/src/analysis/core/alias/mop/graph.rs:482-482 | a block with a smaller low-link reaches an open block below it and may stay on the stack |
| `Scc.FinishedIsReached` | rapx/src/analysis/core/alias/mop/graph.rs:544-551 | at the end exactly the blocks reachable from block 0 are finished |
| `Scc.FinishedIsCondensed` | rapx/src/analysis/core/alias/mop/graph.rs:544-551 | the final invariant is the statement of `SolveScc` |
| `Paths.CondensedEdgeShrinks` | rapx/src/analysis/safedrop/graph.rs:568-577 | following a condensed edge strictly shrinks the set of reachable blocks |
| `Paths.CondensedIsRanked` | rapx/src/analysis/safedrop/graph.rs:568-577 | reachability counts rank the condensed graph, alike within a component and lower along each edge |
| `Paths.CondensedAcyclic` | rapx/src/analysis/safedrop/graph.rs:568-577 | the representative graph is acyclic: no chain comes back to a component it left |
| `Paths.CondensedCovers` | rapx/src/analysis/safedrop/graph.rs:546-577 | every original edge of the reached part stays in its component or is a condensed edge |
| `Paths.PathEnumerator.Dfs` | rapx/src/analysis/safedrop/graph.rs:591-607 | appends, without repetition, exactly the maximal chains that extend the stack, and returns the stack without its last element |
| `Paths.PathEnumerator.GetPaths` | rapx/src/analysis/safedrop/graph.rs:609-616 | ends and returns, each once, exactly the maximal sequences from block 0 linked by the condensed `next` |
| `Paths.CondenseAndEnumerate` | rapx/src/analysis/safedrop/graph.rs:582-616 | `solve_scc` followed by `get_paths` needs no assumption besides the missing edge into block 0 |
| `Paths.EveryPathCovered` | rapx/src/analysis/safedrop/graph.rs:591-616 | every path of the original graph from block 0 is tracked by one enumerated path: it meets the path's components in order and moves on exactly when the path leaves one |
| `UnionFind.UnionFindRoot` | rapx/src/analysis/core/alias/mop/alias.rs:324-330 | on any acyclic parent array the search ends at the unique root |
| `UnionFind.UnionIsSame` | rapx/src/analysis/core/alias/mop/alias.rs:350-354 | answers whether two elements share a root |
| `UnionFind.UnionMerge` | rapx/src/analysis/core/alias/mop/alias.rs:333-347 | leaves a flat array in which exactly the two classes are joined, led by the smaller root |
| `UnionFind.MergeIsLeast` | rapx/src/analysis/core/alias/mop/alias.rs:333-347 | the new partition is the least one containing the old partition and the pair |
| `UnionFind.SameIffNeverSeparated` | rapx/src/analysis/core/alias/mop/alias.rs:350-354 | two elements share a class iff no labelling that respects the parent links separates them |
| `UnionFind.LinkAcyclic` | rapx/src/analysis/core/alias/mop/alias.rs:22-26 | a discriminant link keeps the array acyclic iff the search from the new parent does not pass the overwritten element |
| `UnionFind.LinkRoot` | rapx/src/analysis/core/alias/mop/alias.rs:22-26 | after such a link exactly the elements whose search passed the overwritten one move to the new class |
| `UnionFind.FlatLink` | rapx/src/analysis/core/alias/mop/alias.rs:22-26 | on a flat array the link loops iff the overwritten element is the root of the other |
| `AliasGraph.LoopingLinkReached` | rapx/src/analysis/core/alias/mop/alias.rs:22-26 | from a fresh arena the copy of a local and a link from what it points to back to the copy close such a cycle |
| `UnionFind.CompressKeepsRoots` | rapx/src/analysis/core/alias/mop/alias.rs:344-346 | pointing an element at its root changes no root |
| `AliasGraph.Graph.Projection` | rapx/src/analysis/core/alias/mop/alias.rs:149-188 | is the walk along the place's fields, each missing field created with the place's local, the drop flags and kind of its step and a fresh singleton class; the left and right variants agree |
| `AliasGraph.WalkStamps` | rapx/src/analysis/core/alias/mop/alias.rs:164-180 | every node a walk adds stands at the field path of one of its steps and has the need-drop and may-drop flags and the kind of that step |
| `AliasGraph.WalkReaches` | rapx/src/analysis/core/alias/mop/alias.rs:149-188 | a walk only adds fields and ends at the node of its field path |
| `AliasGraph.WalkAddsBelow` | rapx/src/analysis/core/alias/mop/alias.rs:149-188 | it adds them inside any closed set of nodes that holds its start, all with the place's local, and touches nothing outside |
| `AliasGraph.WalkKeepsTrees` | rapx/src/analysis/core/alias/mop/alias.rs:149-188 | a walk keeps the forest: children above parents, one parent each, the parent's local, the right field number |
| `AliasGraph.Graph.MergeAlias` | rapx/src/analysis/core/alias/mop/alias.rs:191-220 | for any two nodes whose recursion is bounded, that is unless the left one lies strictly below the right one: a finished run of the recursion in any field order, which keeps the arena invariant and all nodes; on disjoint trees it leaves the right tree unchanged, gives the left every path of the right with mirrored type facts, and the new partition is the least one with the old pairs and all pairs (l.p, r.p) |
| `AliasGraph.Graph.MergeFrom` | rapx/src/analysis/core/alias/mop/alias.rs:203-219 | the field loop over a copy of the right node's fields, in any order, builds a run of the recursion |
| `AliasGraph.Graph.MergeField` | rapx/src/analysis/core/alias/mop/alias.rs:203-219 | one round of the loop, with the nested call on the two fields |
| `AliasGraph.Graph.AddMissingField` | rapx/src/analysis/core/alias/mop/alias.rs:204-216 | the created field is unaliased and copies the drop flags and kind of the right one |
| `MergeTrees.MergedAliases` | rapx/src/analysis/core/alias/mop/alias.rs:191-220 | after a merge l.p and r.p alias for every path p of the right tree |
| `MergeTrees.MergedKeeps` | rapx/src/analysis/core/alias/mop/alias.rs:191-220 | a merge never separates what aliased before |
| `MergeTrees.MergedPaths` | rapx/src/analysis/core/alias/mop/alias.rs:191-220 | the left paths afterwards are exactly its own and those of the right, whose nodes are unchanged |
| `MergeTrees.MirrorsStep` | rapx/src/analysis/core/alias/mop/alias.rs:217-218 | nodes added by the nested merge of a field stand below that field and mirror the right tree |
| `MergeRuns.MergeEndsIff` | rapx/src/analysis/core/alias/mop/alias.rs:191-220 | `merge_alias` has a run that ends iff the left node does not lie strictly below the right one |
| `MergeRuns.NoRunFromBelow` | rapx/src/analysis/core/alias/mop/alias.rs:191-220 | no run from a left node strictly below the right one ends, whatever the order of the fields |
| `MergeRuns.EndsIff` | rapx/src/analysis/core/alias/mop/alias.rs:191-220 | the depth of the recursion is bounded iff the left node is not strictly below the right one |
| `MergeRuns.SomeRun` | rapx/src/analysis/core/alias/mop/alias.rs:191-220 | within the bound the field loop can be run to its end with any choice of the next field |
| `MergeRuns.RoundKeepsEnds` | rapx/src/analysis/core/alias/mop/alias.rs:203-219 | a round of the field loop leaves the other rounds as bounded as before, although it may add nodes to the trees still to be walked |
| `MergeRuns.RunGrew` | rapx/src/analysis/core/alias/mop/alias.rs:191-220 | every finished run, on overlapping trees too, keeps the arena invariant and all nodes |
| `MergeRuns.RunMerges` | rapx/src/analysis/core/alias/mop/alias.rs:191-220 | on disjoint trees a finished run is a merge of the two trees with the least partition |
| `AliasGraph.GuardSeparates` | rapx/src/analysis/core/alias/mop/alias.rs:32-34 | different locals imply disjoint trees, so each guarded merge meets the condition of `MergeAlias` |
| `AliasGraph.Graph.Assign` | rapx/src/analysis/core/alias/mop/alias.rs:18-35 | one assignment resolves both places and merges, links or does nothing as its kind and the guard say; the arena only grows and keeps its invariant unless a link loops |
| `AliasGraph.Graph.AliasBlock` | rapx/src/analysis/core/alias/mop/alias.rs:13-36 | runs the block's assignments in order, one stated step each, up to the first that does not complete; the arena invariant holds in every state passed, the constants are those of the block, and without discriminant links no alias is lost |
| `AliasGraph.TraceGrows` | rapx/src/analysis/core/alias/mop/alias.rs:17-36 | over a whole block the arena only grows, and without discriminant links no alias is lost |
| `AliasGraph.AssignmentCoarsens` | rapx/src/analysis/core/alias/mop/alias.rs:18-35 | an assignment other than a discriminant link keeps all aliases |
| `AliasGraph.AssignmentAliases` | rapx/src/analysis/core/alias/mop/alias.rs:18-36 | after a copy or move between different locals every place below the right one exists below the left one and aliases it |
| `AliasGraph.LastConstantWins` | rapx/src/analysis/core/alias/mop/alias.rs:13-16 | the last constant recorded for a local counts and locals without one keep theirs |
| `Summary.GetFieldSeq` | rapx/src/analysis/core/alias/mop/alias.rs:313-321 | returns the node's own field number or nothing, or never ends, which it does iff both the node and its father have a field number |
| `Summary.FieldSeqEndsIff` | rapx/src/analysis/core/alias/mop/alias.rs:313-321 | iterating the loop, its guard fails at some round iff the node or its father has no field number |
| `Summary.FieldSeqEnds` | rapx/src/analysis/core/alias/mop/alias.rs:313-321 | under the arena invariant the father of a node is a local without a field number, so the loop ends |
| `Summary.FieldSeqExact` | rapx/src/analysis/core/alias/mop/alias.rs:313-321 | the recorded sequence leads back to the node iff the node is a local or a direct field of one |
| `Summary.DepthTwoMisnamed` | rapx/src/analysis/core/alias/mop/alias.rs:313-321 | two fields down from a fresh local, the recorded sequence names a place that does not exist |
| `Summary.MergeResults` | rapx/src/analysis/core/alias/mop/alias.rs:266-311 | adds exactly the recorded pairs of the leaf state to the result set |
| `Summary.MergeNode` | rapx/src/analysis/core/alias/mop/alias.rs:275-308 | adds exactly the pairs of one node with its class members of other locals |
| `Summary.SummaryComplete` | rapx/src/analysis/core/alias/mop/alias.rs:266-311 | two aliasing places of distinct locals among return and arguments are recorded, both ways round when neither is the return place |
| `Summary.SummarySound` | rapx/src/analysis/core/alias/mop/alias.rs:266-311 | every recorded pair comes from such an alias, joins different locals and never has the return place on the right |
| `AliasGraph.Graph.FollowFields` | rapx/src/analysis/core/alias/mop/alias.rs:233-261 | the two field loops of `merge` are walks; every node they add lies on the way of the recorded fields and is a raw pointer with the flags of the pair's side |
| `AliasGraph.PairWalkAdds` | rapx/src/analysis/core/alias/mop/alias.rs:233-261 | the nodes added for a pair lie on its left or its right way, with the flags of that side |
| `AliasGraph.Graph.Merge` | rapx/src/analysis/core/alias/mop/alias.rs:223-263 | replays one pair over distinct whole-local arguments, ignores a pair out of range, and keeps the arena invariant |
| `AliasGraph.ReplayedAliases` | rapx/src/analysis/core/alias/mop/alias.rs:223-263 | the two caller places of a replayed pair alias and nothing is separated |
| `AliasGraph.Graph.ReplaySummary` | rapx/src/analysis/core/alias/mop/alias.rs:92-97 | replays each pair of the summary exactly once, in any order; afterwards the places of every valuable pair alias and nothing is separated |
| `AliasGraph.ReplayAliases` | rapx/src/analysis/core/alias/mop/alias.rs:92-97 | over any order of replayed pairs no later merge undoes an earlier one |
| `Summary.CalleeAliasReachesCaller` | rapx/src/analysis/core/alias/mop/alias.rs:92-97 | droppable callee places of field depth at most one that alias in a leaf state alias in any caller state in which the recorded pairs alias |
| `Summary.CallThrough` | rapx/src/analysis/core/alias/mop/alias.rs:92-116 | extraction and replay composed: afterwards all such callee places alias in the caller over distinct whole-local arguments, and nothing is separated |
| `Summary.LeftWalkShares` | rapx/src/analysis/core/alias/mop/alias.rs:232-244 | naming a created left field after the argument's value index keeps the shared local iff that argument is a whole local or nothing is created |
| `Summary.FieldArgumentBreaksLocal` | rapx/src/analysis/core/alias/mop/alias.rs:232-244 | a field of a fresh local as argument breaks the shared local |
| `Explorer.Search.constructor` | rapx/src/analysis/core/alias/mop/graph.rs:440-456 | the search starts from the given state, with no constant, no visit and no result |
| `Explorer.Search.SplitCheck` | rapx/src/analysis/core/alias/mop/mop.rs:11-26 | restores arena, parents and constants, and adds exactly the results of runs through the successor |
| `Explorer.Search.SplitCheckWithCond` | rapx/src/analysis/core/alias/mop/mop.rs:27-46 | the same with the arm's value recorded on the way in only |
| `Explorer.Search.HandleSwitch` | rapx/src/analysis/core/alias/mop/mop.rs:260-318 | the flags and targets computed step by step are the decision of the block; a constant switch, and a switch on an enum whose value is known, goes to the first target listed for the value and otherwise to the default one |
| `Explorer.Search.Branch` | rapx/src/analysis/core/alias/mop/mop.rs:260-358 | explores exactly the calls that the decision allows |
| `Explorer.Search.TakeArms` | rapx/src/analysis/core/alias/mop/mop.rs:324-348 | explores each listed arm with its value and the default arm with the default mark |
| `Explorer.Search.CheckOrders` | rapx/src/analysis/core/alias/mop/mop.rs:219-359 | explores the empty order and each given one from the same saved state |
| `Explorer.Search.Check` | rapx/src/analysis/core/alias/mop/mop.rs:49-359 | every result it adds is extracted at the leaf of a run of calls, and unless the visit limit is passed every such result is added; it ends on every graph |
| `Explorer.AnalyseStraight` | rapx/src/analysis/core/alias/mop/mop.rs:49-359 | meet over all paths: without sub-blocks and without switches on constants or tracked discriminants the results are never more than those of the states folded along all maximal paths from block 0, and exactly those when at most 100 chains start at block 0 |
| `Explorer.RunsArePaths` | rapx/src/analysis/core/alias/mop/mop.rs:49-359 | what runs of calls extract is what folded paths extract, both ways |
| `Explorer.ArenaAlongRun` | rapx/src/analysis/core/alias/mop/mop.rs:49-359 | if blocks and switch operands keep the arena invariant, every call of every run starts in it and every leaf hands it to the extraction |
| `SubBlocks.OrdersIgnored` | rapx/src/analysis/core/alias/mop/mop.rs:224-258 | with at most one successor neither the calls of a visit nor a leaf's results depend on the sub-block orders |
| `SubBlocks.OrderExploredIff` | rapx/src/analysis/core/alias/mop/mop.rs:224-258 | what a sub-block order contributes, leaf results or further calls, is found iff there are several successors, or one and the order leaves the state alone, or none and it adds nothing to extract |
| `SubBlocks.SubBlockSkipped` | rapx/src/analysis/core/alias/mop/mop.rs:224-258 | a loop of two blocks behind the entry loses what its second block records when it has no exit or one, and with two exits does not |
| `SubBlocks.LoopCondensed` | rapx/src/analysis/core/alias/mop/graph.rs:544-551 | the block table of that loop is the one `solve_scc` makes of a graph with an edge back |
| `Explorer.RunKeeps` | rapx/src/analysis/core/alias/mop/mop.rs:27-46 | a recorded arm value stays known along a run until a block records a constant for the enum |
| `Explorer.PathConsistency` | rapx/src/analysis/core/alias/mop/mop.rs:260-348 | after a run takes the arm for value v of a switch on enum e, every later switch on e goes to the first target listed for v, or to the default one when v is unlisted, until a block records a constant for e |
| `Explorer.UnknownTakesEvery` | rapx/src/analysis/core/alias/mop/mop.rs:320-344 | while the value of e is unknown, a switch on its whole discriminant visits every listed arm and the default one, each with its value recorded, and nothing else |
| `Explorer.FlowInOrder` | rapx/src/analysis/core/alias/mop/mop.rs:233-238 | the blocks of a sub-block order take effect in the order given |
| `Interprocedural.Analysis.Check` | rapx/src/analysis/core/alias/mop/mop.rs:49-359 | ends on every call graph by (functions not under analysis, visits left); returns `recursion_set` as it was, loses no cached summary and caches none for a function under analysis; what it adds to the results is extracted at leaves of runs from here that replay one summary per callee, each made before; and unless the visit limit is passed all branches are covered |
| `Interprocedural.Analysis.AliasCalls` | rapx/src/analysis/core/alias/mop/alias.rs:87-116 | the state is the replay, call by call, of the cached summaries of all callees with a body that are not under analysis, each of which is cached afterwards; `recursion_set` and the caller's counters are unchanged |
| `Interprocedural.Analysis.Summarise` | rapx/src/analysis/core/alias/mop/alias.rs:99-115 | a new cache entry is the result of analysing the callee with itself under analysis, justified by the summaries made before |
| `Interprocedural.Analysis.Explore` | rapx/src/analysis/core/alias/mop/mop.rs:220-258 | the order loop restores state, cache and `recursion_set` before each round; its results are found, and cover every round unless the limit is passed |
| `Interprocedural.CoveredRuns` | rapx/src/analysis/core/alias/mop/mop.rs:239-257 | a covered visit has everything that runs with consistent summaries extract |
| `Interprocedural.SummaryExact` | rapx/src/analysis/core/alias/mop/mop.rs:239-257 | a summary within the visit limit, over callees with one summary each, is exactly what the runs of its function extract |
| `Interprocedural.SummariesAgree` | rapx/src/analysis/core/alias/mop/alias.rs:97-115 | without recursion and within the limit every analysis of a function gives the same summary, in whatever order and context |
| `Interprocedural.RankedExact` | rapx/src/analysis/core/alias/mop/alias.rs:97-115 | so there every summary is exactly what the runs of its function extract |
| `Interprocedural.Analysis.Split` | rapx/src/analysis/core/alias/mop/mop.rs:317-358 | each branch starts from the same state, and every successor that the switch lets through is covered unless the limit is passed |
| `Interprocedural.Analysis.Query` | rapx/src/analysis/core/alias/mop.rs:68-87 | analysing one function from an empty `recursion_set` ends with it empty; the result is justified as a summary, exact without recursion within the limit; and the cache holds summaries of called functions only |
| `Liveness.SearchDead` | rapx/src/analysis/safedrop/check_bugs.rs:44-82 | started with an empty record, finds a dead value (a dead pointer in a dangling check) iff one is reachable through alias classes and fields |
| `Liveness.ExistDead` | rapx/src/analysis/safedrop/check_bugs.rs:44-82 | with a shared record: a hit is reachable, and a miss leaves everything newly recorded settled, so the record hides nothing; it ends |
| `Liveness.UnionHasAlias` | rapx/src/analysis/safedrop/alias.rs:303-313 | answers whether another element shares the class |
| `Liveness.SafeDrop.UafCheck` | rapx/src/analysis/safedrop/check_bugs.rs:31-42 | reports a use iff a droppable value, other than a bare pointer named by its own local outside a call, reaches a dead one |
| `Liveness.SafeDrop.IsDangling` | rapx/src/analysis/safedrop/check_bugs.rs:84-87 | any dead value for the return place, only dead pointers for others |
| `Liveness.SafeDrop.DfCheck` | rapx/src/analysis/safedrop/check_bugs.rs:89-97 | answers whether the value is dead and reports the first such drop per root local |
| `Liveness.SafeDrop.DeadNode` | rapx/src/analysis/safedrop/check_bugs.rs:122-165 | ends; exactly the newly recorded droppable values born before the block die, nothing is revived, aliases and fields follow, a dead argument is reported at the given place, and new reports name only a dead argument or dead values below a live one; fields are entered by direct drops only, without the parts of a tuple that need no drop, and aliases only from a value with a parent, so nothing outside any set closed under these is recorded |
| `Liveness.SafeDrop.KillAliases` | rapx/src/analysis/safedrop/check_bugs.rs:137-150 | records the whole class but references and counted pointers, without a report |
| `Liveness.SafeDrop.KillFields` | rapx/src/analysis/safedrop/check_bugs.rs:153-160 | every field is recorded, reported, or exempt, and exempt parts of a tuple are not entered |
| `Liveness.TuplePartDiesIff` | rapx/src/analysis/safedrop/check_bugs.rs:153-160 | a part of a dropped tuple that no alias leads to keeps its record and birth iff it needs no drop, and is otherwise recorded or reported |
| `Liveness.ShelteredUntouched` | rapx/src/analysis/safedrop/check_bugs.rs:122-165 | a drop leaves alone every set of values that no direct drop or kill enters from outside |
| `Liveness.TuplePartLives` | rapx/src/analysis/safedrop/check_bugs.rs:153-160 | a pointer copied out of a tuple outlives the drop of the tuple, and its use is not reported |
| `Liveness.SafeDrop.DropFieldFree` | rapx/src/analysis/safedrop/check_bugs.rs:136-150 | aliases die with a field-free value iff it is not the root of its class |
| `Liveness.RootDropSparesAlias` | rapx/src/analysis/safedrop/check_bugs.rs:136-150 | dropping the root of a class of two leaves the other alive |
| `Liveness.SafeDrop.DropPlace` | rapx/src/analysis/safedrop/safedrop.rs:14-53 | one drop is a drop step of the histories below, which bounds kills and reports |
| `Liveness.SafeDrop.FillBirth` | rapx/src/analysis/safedrop/alias.rs:128-138 | exactly the tree below the place and the dead values aliasing into it are born again |
| `Liveness.SafeDrop.Assigned` | rapx/src/analysis/safedrop/alias.rs:128-138 | an assignment is a fill step of the histories below |
| `Liveness.StaysDead` | rapx/src/analysis/safedrop/check_bugs.rs:122-165 | a dead value stays dead, with its local, through any steps that do not rebirth it, and reports stay |
| `Liveness.DoubleDropReported` | rapx/src/analysis/safedrop/check_bugs.rs:89-97 | a live, droppable, uncounted value that was never dropped before and was born before the block, dropped twice without a rebirth between, leaves a report for its root local |
| `Liveness.DropKillsIff` | rapx/src/analysis/safedrop/check_bugs.rs:122-165 | a drop kills a live, droppable, uncounted value iff it is unrecorded and born before the block |
| `Liveness.RecordedOutlives` | rapx/src/analysis/safedrop/alias.rs:128-138 | a value dropped once and assigned again is never killed by any later step |
| `Liveness.DropReportsIff` | rapx/src/analysis/safedrop/check_bugs.rs:89-97 | a drop of a field-free value adds a report for its local iff the value is dead, and no other report |
| `Liveness.NoneDeadNoReport` | rapx/src/analysis/safedrop/check_bugs.rs:89-97 | over any history a local none of whose values is dead gains no report |
| `Liveness.RecordedNeverReported` | rapx/src/analysis/safedrop/check_bugs.rs:122-165 | a recorded live value that is the only one of its local is never reported |
| `Liveness.DoubleDropReportedIff` | rapx/src/analysis/safedrop/check_bugs.rs:122-165 | two drops of the only value of a local, with no rebirth between, leave a report iff the value was unrecorded and born before the block at the first |
| `Liveness.RebornDoubleFreeMissed` | rapx/src/analysis/safedrop/check_bugs.rs:122-165 | drop, assignment, drop, drop, run through the methods, ends with the value alive and no report |
| `TopoOrder.CollectEdges` | rapx/src/analysis/rcanary/ranalyzer/order.rs:42-83 | edges are the terminators' targets, each level counts the incoming edges, and predecessor lists hold one entry per edge |
| `TopoOrder.Order` | rapx/src/analysis/rcanary/ranalyzer/order.rs:85-99 | on any graph without an edge into block 0, cyclic or with repeated edges: ends, never lowers a zero level, emits each block at most once and after all its predecessors, and only what was queued by its last edge |
| `TopoOrder.Relax` | rapx/src/analysis/rcanary/ranalyzer/order.rs:91-97 | consuming the edges of an emitted block lowers positive levels only and queues a block exactly at its last edge |
| `TopoOrder.EmitsReachableIff` | rapx/src/analysis/rcanary/ranalyzer/order.rs:85-99 | the order holds exactly the reachable blocks iff no reachable edge closes a cycle and all predecessors of reachable blocks are reachable |
| `TopoOrder.LoopCutShort` | rapx/src/analysis/rcanary/ranalyzer/order.rs:85-99 | on a loop of two blocks behind the entry only the entry is emitted |
| `TopoOrder.PredecessorsFinished` | rapx/src/analysis/rcanary/ranalyzer/intra_visitor.rs:80-84 | every visited block but the entry finds a non-empty predecessor list, all of it visited before |
| `BitVectors.RustBvToInt` | rapx/src/analysis/rcanary/ranalyzer/intra_visitor.rs:2967-2975 | in checked 64-bit arithmetic the result is the vector's number, and there is one iff the length is at most 63 |
| `BitVectors.ValueDigit` | rapx/src/analysis/rcanary/ranalyzer/intra_visitor.rs:2964-2975 | digit i of that number is bit i |
| `BitVectors.ValueRoundTrip` | rapx/src/analysis/rcanary/ranalyzer/intra_visitor.rs:2964-2975 | the numeral of that number in the vector's width is the vector |
| `BitVectors.NumeralBit` | rapx/src/analysis/rcanary/ranalyzer/intra_visitor.rs:2964-2975 | bit i of the numeral in any width is the vector's bit, or zero above it |
| `BitVectors.ClearMask` | rapx/src/analysis/rcanary/ranalyzer/intra_visitor.rs:1722-1727 | the mask clears exactly one bit; it exists iff the width is at most 63 |
| `BitVectors.LayoutAligned` | rapx/src/analysis/rcanary/ranalyzer/intra_visitor.rs:2931-2953 | layout items and bits correspond iff no item is uninitialised |
| `Constraints.SpliceTerm` | rapx/src/analysis/rcanary/ranalyzer/intra_visitor.rs:1732-1744 | the term built from extracts and concatenations means the vector with one bit replaced, in every model |
| `Ownership.Analysis.InitArg` | rapx/src/analysis/rcanary/ranalyzer/intra_visitor.rs:117-149 | an owned argument starts with exactly the bits of its layout and no layout entry of its own, any other is given up; no solution is excluded |
| `Ownership.EnterAll` | rapx/src/analysis/rcanary/ranalyzer/intra_visitor.rs:106-155 | the loop over the arguments enters exactly their shapes and bits, in every solution |
| `Ownership.Analysis.GiveUp` | rapx/src/analysis/rcanary/ranalyzer/intra_visitor.rs:2626-2636 | the local is unsupported, what it held counts as lost, the balance stays |
| `Ownership.Analysis.Prepare` | rapx/src/analysis/rcanary/ranalyzer/intra_visitor.rs:614-679 | goes on iff both sides are supported, the source is initialised and not empty, and the types or the priority allow it; an initialised target is constrained to be empty |
| `Ownership.Analysis.HandleCopy` | rapx/src/analysis/rcanary/ranalyzer/intra_visitor.rs:597-724 | in every solution the target was empty and one side now holds the source's bits while the other is empty; from every solution with an empty target either side can be the one, and exactly the others are excluded; both sides are given up iff unsupported, of different types or unidentified; other locals and the balance stay |
| `Ownership.Analysis.HandleMove` | rapx/src/analysis/rcanary/ranalyzer/intra_visitor.rs:726-843 | the same with the target holding the source's bits |
| `Ownership.Analysis.HandleFieldToField` | rapx/src/analysis/rcanary/ranalyzer/intra_visitor.rs:1589-1946 | in every solution one bit passes from source to target, or in a copy stays and clears the target's; from every other solution a copy can go either way; exactly the solutions in which the overwritten bit is set are excluded, for an initialised local other than the return place and the arguments, whose bit counts as lost; the panics are exactly the stated misfits |
| `Ownership.Analysis.FieldAssign` | rapx/src/analysis/rcanary/ranalyzer/intra_visitor.rs:1662-1773 | the part of the above past the early exits |
| `Balance.FieldCount` | rapx/src/analysis/rcanary/ranalyzer/intra_visitor.rs:1715-1770 | whichever way the bit went, the set bits of both sides change only by the overwritten one |
| `Ownership.Analysis.CallResult` | rapx/src/analysis/rcanary/ranalyzer/intra_visitor.rs:2255-2338 | the result owns the layout's bits joined with the pointer bits, which are counted as created; exactly the solutions with a non-empty target are excluded; panics iff the vectors do not fit together and into 63 bits |
| `Ownership.Analysis.PassPointer` | rapx/src/analysis/rcanary/ranalyzer/intra_visitor.rs:2121-2135 | a pointer argument keeps its vector, and exactly the solutions in which it owns something are excluded; a local that is not followed is left alone |
| `Ownership.Analysis.HandleDrop` | rapx/src/analysis/rcanary/ranalyzer/intra_visitor.rs:2512-2624 | bit by bit: a whole drop releases what the layout does not mark as kept, a recovery everything, a field drop one owned field and a field recovery one kept field; no solution is excluded; the balance records what was cleared |
| `Balance.DropTerm` | rapx/src/analysis/rcanary/ranalyzer/intra_visitor.rs:2544-2622 | the term built for the new vector means the drop bit by bit, and is missing iff the source panics |
| `Balance.DropClearsOwned` | rapx/src/analysis/rcanary/ranalyzer/intra_visitor.rs:2562-2574 | with layout and vector of one length, a whole drop clears exactly the owned bits |
| `Balance.FieldDropClears` | rapx/src/analysis/rcanary/ranalyzer/intra_visitor.rs:2576-2620 | a field drop clears its bit iff the layout owns the field, a field recovery iff it does not, and no other bit |
| `Balance.LayoutlessIff` | rapx/src/analysis/rcanary/ranalyzer/intra_visitor.rs:2512-2624 | every whole drop clears all bits and every field drop none iff the local has no layout |
| `Balance.ArgumentDrops` | rapx/src/analysis/rcanary/ranalyzer/intra_visitor.rs:2512-2624 | without its layout an owned argument keeps the bit of a dropped field and loses a pointer's bit to a whole drop |
| `Shapes.LayoutStays` | rapx/src/analysis/rcanary/ranalyzer/intra_visitor.rs:647-679 | no run of operations gives a layout to a local that already is followed or given up |
| `Shapes.AssignedOfOneType` | rapx/src/analysis/rcanary/ranalyzer/intra_visitor.rs:614-679 | whole values pass only between locals of one type: different types or an unidentified first assignment give both sides up |
| `Ownership.Analysis.DropArgumentLater` | rapx/src/analysis/rcanary/ranalyzer/intra_visitor.rs:117-149 | after any operations a whole drop of an argument leaves it nothing and a field drop leaves it as it is |
| `Balance.UnownedOutlivesDrops` | rapx/src/analysis/rcanary/ranalyzer/intra_visitor.rs:2562-2600 | without recovery no drop clears a bit of a layout that owns nothing |
| `Ownership.Analysis.HandleReturn` | rapx/src/analysis/rcanary/ranalyzer/intra_visitor.rs:2417-2454 | afterwards created = cleared + lost + bits in the return place and arguments in every solution, and the constraints are solvable iff some solution before the return leaves every other local empty |
| `Ownership.Analysis.Run` | rapx/src/analysis/rcanary/ranalyzer/intra_visitor.rs:87-104 | for any run of copies, moves, field assignments, call results, drops and pointer arguments followed by the return: it completes iff the shapes do, creates what its calls create, loses nothing when no followed local is given up and no field of the return place or an argument overwritten, balances in every solution, and is solvable, so that no leak is reported, iff some solution at the start holds bits from which the operations can end clean |
| `Ownership.AnalysePath` | rapx/src/analysis/rcanary/ranalyzer/intra_visitor.rs:106-155 | the same from the entry of a function, judged by its declared arguments and operations alone: a leak is reported iff no choice for the copies takes the entry bits to an end where every local but the return place and the arguments owns nothing |
| `Ownership.Analysis.Step` | rapx/src/analysis/rcanary/ranalyzer/intra_visitor.rs:251-349 | each operation takes the shape to its successor, and its solutions are exactly the allowed earlier ones with a vector for each outcome |
| `Steps.AssignStepped` | rapx/src/analysis/rcanary/ranalyzer/intra_visitor.rs:597-843 | this for copies and moves of whole values |
| `Steps.FieldStepped` | rapx/src/analysis/rcanary/ranalyzer/intra_visitor.rs:1589-1946 | this for field assignments |
| `Steps.DropStepped` | rapx/src/analysis/rcanary/ranalyzer/intra_visitor.rs:2512-2624 | this for drops |
| `Steps.CallStepped` | rapx/src/analysis/rcanary/ranalyzer/intra_visitor.rs:2255-2338 | this for the results of calls |
| `Steps.PassStepped` | rapx/src/analysis/rcanary/ranalyzer/intra_visitor.rs:2121-2135 | this for pointer arguments |
| `Steps.StepKeepsClean` | rapx/src/analysis/rcanary/ranalyzer/intra_visitor.rs:251-349 | a solution from which the remaining operations can end clean exists after an operation iff one existed before it |
| `Holdings.Conserved` | rapx/src/analysis/rcanary/ranalyzer/intra_visitor.rs:251-349 | on the bits: whatever a copy chooses, the set bits change by what a call creates and what is dropped, given up or overwritten |
| `Holdings.CleanWithinMeans` | rapx/src/analysis/rcanary/ranalyzer/intra_visitor.rs:2417-2457 | a run that ends clean created no more than its drops can clear, its losses can swallow and the return place and arguments can hold |
| `Holdings.SparedBitLeaks` | rapx/src/analysis/rcanary/ranalyzer/intra_visitor.rs:2562-2600 | a bit leaks if its local is only passed to calls, dropped in other fields or, when the layout does not own it, dropped without recovery, whatever happens to the other locals |
| `Holdings.CreatedBitLeaks` | rapx/src/analysis/rcanary/ranalyzer/intra_visitor.rs:2270-2285 | a call leaks if its layout owns, or it returns a pointer bit at, a position that is spared in this way afterwards |
| `Holdings.UntouchedResultIff` | rapx/src/analysis/rcanary/ranalyzer/intra_visitor.rs:2255-2338 | a run whose first call's result is never touched again ends clean iff it does without the call, the layout owns nothing and no pointer bit is set |
| `Holdings.OwnerForgotten` | rapx/src/analysis/rcanary/ranalyzer/intra_visitor.rs:2270-2285 | a result with an owned position and a pointer leaks when only the pointer is recovered |
| `Holdings.RecoveredIff` | rapx/src/analysis/rcanary/ranalyzer/intra_visitor.rs:2562-2600 | a result recovered as a whole leaves nothing behind |
| `Holdings.StrandedPointer` | rapx/src/analysis/rcanary/ranalyzer/intra_visitor.rs:2270-2285 | a pointer left in one local leaks although as many bits of another value are released |
| `Holdings.ResultLeaksIff` | rapx/src/analysis/rcanary/ranalyzer/intra_visitor.rs:2270-2285 | the result of a call, moved on any number of times and dropped, leaks iff the call returned a pointer bit where the layout owns nothing |
| `Shapes.NoneGivenUpKeepsAll` | rapx/src/analysis/rcanary/ranalyzer/intra_visitor.rs:2626-2636 | if no local is unsupported at the end and no field of the return place or an argument is assigned, nothing is lost |
| `Shapes.IdleSpendsNothing` | rapx/src/analysis/rcanary/ranalyzer/intra_visitor.rs:2562-2600 | a run that loses nothing and whose drops are without recovery on unowning layouts of the vector's length clears nothing |
| `Shapes.ReleasesNothingIff` | rapx/src/analysis/rcanary/ranalyzer/intra_visitor.rs:2562-2574 | a drop without recovery releases nothing if, and for a whole local only if, the layout owns nothing |
| `Steps.OverdrawnCannotEndClean` | rapx/src/analysis/rcanary/ranalyzer/intra_visitor.rs:2417-2457 | created bits beyond what can be cleared, lost or left leave no way to end clean, and so no solution of the return constraints |
| `Balance.TransferKeeps` | rapx/src/analysis/rcanary/ranalyzer/intra_visitor.rs:597-843 | moving bits between two locals keeps the balance |
| `Balance.SolvableIff` | rapx/src/analysis/rcanary/ranalyzer/intra_visitor.rs:2427-2457 | a return is unsatisfiable iff every earlier solution leaves ownership in some other local |
| `Join.JoinLocal` | rapx/src/analysis/rcanary/ranalyzer/intra_visitor.rs:173-232 | a local is given up iff some predecessor gave it up or two disagree about its type, left alone iff all have it only declared, and otherwise gets a vector whose every bit is set iff all initialising predecessors own it |
| `Join.JoinOwnsLess` | rapx/src/analysis/rcanary/ranalyzer/intra_visitor.rs:212-228 | a join creates no ownership |
| `TypeKeys.ErasedEqualIff` | rapx/src/analysis/core/api_dep/graph/ty_wrapper.rs:34-81 | for all types: equal after erasing lifetimes, lengths and patterns iff `eq_ty` accepts them and no argument list was cut off |
| `TypeKeys.EqIsErasedEquality` | rapx/src/analysis/core/api_dep/graph/ty_wrapper.rs:34-81 | on types with declared arities `eq_ty` is equality up to erasure, so an equivalence |
| `TypeKeys.CutOffIsNotTransitive` | rapx/src/analysis/core/api_dep/graph/ty_wrapper.rs:40-54 | with differing argument counts `eq_ty` is not transitive |
| `TypeKeys.HashInto` | rapx/src/analysis/core/api_dep/graph/ty_wrapper.rs:126-187 | appends exactly the specified token stream and advances the counter as specified |
| `TypeKeys.HashErased` | rapx/src/analysis/core/api_dep/graph/ty_wrapper.rs:126-187 | hashing sees nothing that erasure removes, from any counter |
| `TypeKeys.EqualTypesHashAlike` | rapx/src/analysis/core/api_dep/graph/ty_wrapper.rs:22-32 | equal types feed identical token streams from any starting counter |
| `TypeKeys.HashExact` | rapx/src/analysis/core/api_dep/graph/ty_wrapper.rs:126-187 | without tuples types feed the same stream iff they are equal |
| `TypeKeys.HashParses` | rapx/src/analysis/core/api_dep/graph/ty_wrapper.rs:126-187 | the stream of a type without tuples tells the type up to erasure and where it ends |
| `TypeKeys.TuplesCollide` | rapx/src/analysis/core/api_dep/graph/ty_wrapper.rs:178-182 | tuple lengths are not hashed: different types may share a stream |
| `TypeKeys.EqualTypesLabelAlike` | rapx/src/analysis/core/api_dep/graph/ty_wrapper.rs:189-250 | equal types get the same label and counter from any starting counter |
| `TypeKeys.LabelSpelled` | rapx/src/analysis/core/api_dep/graph/ty_wrapper.rs:189-250 | a label spelled out, with lifetimes numbered in the order they are met |
| `TypeKeys.NodeClasses` | rapx/src/analysis/core/api_dep/graph/dep_node.rs:15-20 | node equality is equality of classes, and equal nodes feed equal streams |
| `TypeKeys.ApiDepGraph.constructor` | rapx/src/analysis/core/api_dep/graph.rs:31-36 | the empty graph |
| `TypeKeys.ApiDepGraph.Find` | rapx/src/analysis/core/api_dep/graph.rs:69-69 | the hash-map lookup succeeds iff the class of the node is there, whatever the hash function |
| `TypeKeys.ApiDepGraph.GetNode` | rapx/src/analysis/core/api_dep/graph.rs:68-76 | returns the index of the node's class and adds the node iff its class is new |
| `TypeKeys.ApiDepGraph.GetNodes` | rapx/src/analysis/core/api_dep/graph.rs:68-76 | over any run of insertions each class has at most one node, and two insertions get one index iff their classes agree |

## Left out

- Compiler internals: construction of the graphs from MIR, drop-need queries, spans and type layouts are inputs.
- Explorer.Search.Check: leaves out the `child_scc` branch, which restores arena and constants but not the parent array.
- `calculate_scc_order`: sub-block orders are a given finite list.
- `switch_target` inside `tarjan`: it only grows the value arena and feeds `child_scc`.
- Calls without a body in `alias_bbcall`: an unguarded `merge_alias` whose trees may overlap.
- AliasGraph.Graph.Merge: states its result for arguments that are distinct whole locals; constant arguments, which all stand for local 0, and field arguments are covered only by Summary.LeftWalkShares.
- AliasGraph.Graph.MergeAlias: on overlapping trees within the bound, what the partition becomes is stated as the run of the recursion and not in closed form.
- AliasGraph.Graph.FollowFields: starts at a whole local, as Merge does.
- AliasGraph.Graph.ReplaySummary: has the arguments of Merge.
- AliasGraph.Graph.AliasBlock: stops where Assign does not complete.
- AliasGraph.Graph.Assign: looks for a looping link and reports it, where the source goes on and hangs at the next search.
- Interprocedural.Analysis.AliasCalls: its call lists hold the callees with a body whose result or arguments may be dropped; which those are is an input.
- Interprocedural.Analysis.Split: visits a successor once, where repeated switch targets make the source visit it again.
- Liveness.SafeDrop.DropFieldFree: with fields, kills of the fields may reach the aliases on other ways.
- Liveness.DoubleDropReported: excludes values recorded by an earlier drop, for which Liveness.DoubleDropReportedIff shows that it fails.
- Explorer.AnalyseStraight: takes the effect of a block and the extraction at a leaf as arbitrary functions of the state, with callee summaries fixed (Explorer.ArenaAlongRun says what they must keep); arena indices that depend on hash-map order are one such function.
- Interprocedural.Analysis.Check: takes the effect of assignments, replays, leaves and switches as arbitrary functions, because its subject is termination, `recursion_set`, the cache and what summaries are made of; with recursion, callees may have several summaries and exactness is stated branch by branch.
- SafeDrop's own `projection` and `merge`: a Deref redirects through `alias_set` without updating `local`; the arena claims are about the MoP versions. SafeDrop's search shares its shape with the MoP one and is not repeated.
- `dp_check` and `drop_heap_item_check`: which places are checked, around the modelled searches.
- rCanary's handlers between a whole value and a field, aggregate initialisation, call results stored in a field, taint sets, the layout of a joined local (the first predecessor's), and the last arm of `handle_move_field_to_field` that falls through after a move to a field.
- Ownership.Analysis.FieldAssign: like HandleFieldToField and HandleCopy requires two locals; for two fields of one local the source gives both new vectors one name, which fresh names do not model.
- Ownership.Analysis.HandleCopy: requires distinct locals; the naming of solver constants is replaced by fresh names, and the solver itself is not modelled.
- Ownership.Analysis.HandleFieldToField: its panics include every target whose vector length differs from its layout; the source panics there for a copy, while a move into a longer vector cuts off the upper bits and an empty source returns first with the length out of step.
- Ownership.Analysis.InitArg: arguments whose type has no name for the type visitor are left as declared and not passed to it.
- Join.JoinLocal: requires that an initialised local has a type, as every handler gives it one; the balance of the ownership flow is stated along one path and not across joins, which keep only what all predecessors agree on.
- BitVectors.RustBvToInt: models the overflow check; the wrap-around of unchecked builds is not modelled.
- TypeKeys.ApiDepGraph.GetNode: edges, labels in the dot output and statistics of the graph are not modelled; types are assumed to have the arities their definitions declare.
- heap_item type visitors, the dataflow graph, senryx contracts, unsafety isolation, call-graph printing, command line, logging and bug rendering.
