/** Enumeration of the maximal paths of a condensed graph (`get_paths`), and what those
    paths mean in the original graph. */
module Paths {
  import opened Digraph
  import opened Scc

  /** Consecutive blocks are linked by the representative's successor set. Entries are the
      raw edge targets, not their representatives. */
  ghost predicate Chain(next: seq<set<nat>>, rep: seq<nat>, p: seq<nat>) {
    && |rep| == |next| && |p| > 0
    && (forall i :: 0 <= i < |p| ==> p[i] < |rep| && rep[p[i]] < |rep|)
    && (forall i, j :: 0 <= i && j == i + 1 && j < |p| ==> p[j] in next[rep[p[i]]])
  }

  /** A chain from block 0 that cannot be extended. */
  ghost predicate MaximalChain(next: seq<set<nat>>, rep: seq<nat>, p: seq<nat>) {
    Chain(next, rep, p) && p[0] == 0 && next[rep[p[|p| - 1]]] == {}
  }

  ghost predicate Distinct<T>(s: seq<T>) {
    forall i, j :: 0 <= i < j < |s| ==> s[i] != s[j]
  }

  // ---------------------------------------------------------------- two views of a condensed graph

  /** The condensed edges out of `reached` stay there and lower the rank, which is the same
      for all members of a component. */
  ghost predicate Ranked(next: seq<set<nat>>, rep: seq<nat>, reached: set<nat>, rank: seq<nat>) {
    && |rep| == |next| == |rank| && 0 in reached
    && InRange(rep, reached) && SameRank(rep, reached, rank) && RankDrops(next, rep, reached, rank)
  }

  ghost predicate InRange(rep: seq<nat>, reached: set<nat>) {
    forall u :: u in reached ==> u < |rep| && rep[u] < |rep|
  }

  ghost predicate SameRank(rep: seq<nat>, reached: set<nat>, rank: seq<nat>)
    requires |rep| == |rank| && InRange(rep, reached)
  {
    forall u, v :: u in reached && v in reached && rep[u] == rep[v] ==> rank[u] == rank[v]
  }

  ghost predicate RankDrops(next: seq<set<nat>>, rep: seq<nat>, reached: set<nat>, rank: seq<nat>)
    requires |rep| == |next| == |rank| && InRange(rep, reached)
  {
    forall u: nat, w: nat :: u in reached && w in next[rep[u]] ==> w in reached && rank[w] < rank[u]
  }

  /** The number of chains that start at `b`. */
  ghost function ChainsFrom(next: seq<set<nat>>, rep: seq<nat>, reached: set<nat>, rank: seq<nat>, b: nat): (n: nat)
    requires Ranked(next, rep, reached, rank) && b in reached
    decreases rank[b], 1
  {
    1 + ChainsOver(next, rep, reached, rank, b, next[rep[b]])
  }

  /** Those that go on to a block of `ws`. */
  ghost function ChainsOver(next: seq<set<nat>>, rep: seq<nat>, reached: set<nat>, rank: seq<nat>, b: nat,
                            ws: set<nat>): (n: nat)
    requires Ranked(next, rep, reached, rank) && b in reached && ws <= next[rep[b]]
    decreases rank[b], 0, ws
  {
    if ws == {} then 0
    else
      var w :| w in ws;
      ChainsFrom(next, rep, reached, rank, w) + ChainsOver(next, rep, reached, rank, b, ws - {w})
  }

  lemma {:induction false} ChainsWithout(next: seq<set<nat>>, rep: seq<nat>, reached: set<nat>, rank: seq<nat>, b: nat,
                                         ws: set<nat>, w: nat)
    requires Ranked(next, rep, reached, rank) && b in reached && ws <= next[rep[b]] && w in ws
    ensures w in reached
    ensures ChainsOver(next, rep, reached, rank, b, ws)
            == ChainsFrom(next, rep, reached, rank, w) + ChainsOver(next, rep, reached, rank, b, ws - {w})
    decreases ws
  {
    var x :| x in ws && ChainsOver(next, rep, reached, rank, b, ws)
                        == ChainsFrom(next, rep, reached, rank, x) + ChainsOver(next, rep, reached, rank, b, ws - {x});
    if x != w {
      ChainsWithout(next, rep, reached, rank, b, ws - {x}, w);
      ChainsWithout(next, rep, reached, rank, b, ws - {w}, x);
      assert ws - {x} - {w} == ws - {w} - {x};
    }
  }

  /** Every original edge out of `reached` stays in its component or is a condensed edge. */
  ghost predicate Covers(g: Graph, next: seq<set<nat>>, rep: seq<nat>, reached: set<nat>) {
    && |rep| == |next| == |g| && 0 in reached
    && (forall u :: u in reached ==> u < |rep| && rep[u] < |rep|)
    && (forall u: nat, w: nat :: u in reached && Edge(g, u, w) ==>
          w in reached && (rep[w] == rep[u] || w in next[rep[u]]))
  }

  lemma SmallerSet(a: set<nat>, b: set<nat>)
    requires a < b
    ensures |a| < |b|
  {
    assert b == a + (b - a);
  }

  ghost function ReachCounts(g: Graph): (r: seq<nat>) {
    seq(|g|, (u: nat) => |ReachSet(g, u)|)
  }

  /** Following a condensed edge strictly shrinks what is still reachable. */
  lemma CondensedEdgeShrinks(g: Graph, next: seq<set<nat>>, sub: seq<seq<nat>>, rep: seq<nat>, dfn: seq<nat>, u: nat,
                             w: nat)
    requires WellFormed(g) && Condensed(g, next, sub, rep, dfn)
    requires u < |g| && Reaches(g, 0, u) && w in next[rep[u]]
    ensures w < |g| && Reaches(g, 0, w)
    ensures ReachSet(g, w) < ReachSet(g, u)
  {
    var r := rep[u];
    ReachesTrans(g, 0, u, r);
    assert LeavesComponent(g, rep, r, w);
    var x :| 0 <= x < |g| && rep[x] == r && Edge(g, x, w);
    assert Reaches(g, 0, x);
    assert Mutual(g, u, x);
    ReachesEdge(g, x, w);
    ReachesTrans(g, u, x, w);
    ReachesTrans(g, 0, u, w);
    forall v | v in ReachSet(g, w) ensures v in ReachSet(g, u) {
      ReachesTrans(g, u, w, v);
    }
    ReachesSelf(g, u);
    assert u in ReachSet(g, u);
    if u in ReachSet(g, w) {
      assert Mutual(g, u, w);
    }
  }

  lemma SameComponentSameCount(g: Graph, u: nat, v: nat)
    requires Mutual(g, u, v)
    ensures u < |g| && v < |g| && ReachCounts(g)[u] == ReachCounts(g)[v]
  {
    forall w | 0 <= w < |g| ensures Reaches(g, u, w) <==> Reaches(g, v, w) {
      if Reaches(g, u, w) { ReachesTrans(g, v, u, w); }
      if Reaches(g, v, w) { ReachesTrans(g, u, v, w); }
    }
    assert ReachSet(g, u) == ReachSet(g, v);
  }

  lemma CondensedEdgeCounts(g: Graph, next: seq<set<nat>>, sub: seq<seq<nat>>, rep: seq<nat>, dfn: seq<nat>, u: nat,
                            w: nat)
    requires WellFormed(g) && Condensed(g, next, sub, rep, dfn)
    requires u in ReachSet(g, 0) && rep[u] < |next| && w in next[rep[u]]
    ensures w in ReachSet(g, 0) && w < |ReachCounts(g)| && ReachCounts(g)[w] < ReachCounts(g)[u]
  {
    CondensedEdgeShrinks(g, next, sub, rep, dfn, u, w);
    SmallerSet(ReachSet(g, w), ReachSet(g, u));
  }

  lemma CondensedSameCounts(g: Graph, next: seq<set<nat>>, sub: seq<seq<nat>>, rep: seq<nat>, dfn: seq<nat>)
    requires WellFormed(g) && |g| > 0 && Condensed(g, next, sub, rep, dfn)
    ensures InRange(rep, ReachSet(g, 0)) && SameRank(rep, ReachSet(g, 0), ReachCounts(g))
  {
    forall u, v | u in ReachSet(g, 0) && v in ReachSet(g, 0) && rep[u] == rep[v]
      ensures ReachCounts(g)[u] == ReachCounts(g)[v]
    {
      SameComponentSameCount(g, u, v);
    }
  }

  /** All condensed edges out of the component of `u` lower the count. */
  ghost predicate DropsFrom(g: Graph, next: seq<set<nat>>, rep: seq<nat>, u: nat) {
    && u < |rep| && rep[u] < |next| && u < |ReachCounts(g)|
    && (forall w: nat :: w in next[rep[u]] ==>
          w in ReachSet(g, 0) && w < |ReachCounts(g)| && ReachCounts(g)[w] < ReachCounts(g)[u])
  }

  lemma CondensedDropsFrom(g: Graph, next: seq<set<nat>>, sub: seq<seq<nat>>, rep: seq<nat>, dfn: seq<nat>, u: nat)
    requires WellFormed(g) && Condensed(g, next, sub, rep, dfn) && u in ReachSet(g, 0)
    ensures DropsFrom(g, next, rep, u)
  {
    forall w: nat | w in next[rep[u]]
      ensures w in ReachSet(g, 0) && w < |ReachCounts(g)| && ReachCounts(g)[w] < ReachCounts(g)[u]
    {
      CondensedEdgeCounts(g, next, sub, rep, dfn, u, w);
    }
  }

  lemma DropsEverywhere(g: Graph, next: seq<set<nat>>, rep: seq<nat>)
    requires |rep| == |next| == |g| && InRange(rep, ReachSet(g, 0))
    requires forall u :: u in ReachSet(g, 0) ==> DropsFrom(g, next, rep, u)
    ensures RankDrops(next, rep, ReachSet(g, 0), ReachCounts(g))
  {
    forall u: nat, w: nat | u in ReachSet(g, 0) && w in next[rep[u]]
      ensures w in ReachSet(g, 0) && ReachCounts(g)[w] < ReachCounts(g)[u]
    {
      assert DropsFrom(g, next, rep, u);
    }
  }

  lemma CondensedIsRanked(g: Graph, next: seq<set<nat>>, sub: seq<seq<nat>>, rep: seq<nat>, dfn: seq<nat>)
    requires WellFormed(g) && |g| > 0 && Condensed(g, next, sub, rep, dfn)
    ensures Ranked(next, rep, ReachSet(g, 0), ReachCounts(g))
  {
    CondensedSameCounts(g, next, sub, rep, dfn);
    forall u | u in ReachSet(g, 0) ensures DropsFrom(g, next, rep, u) {
      CondensedDropsFrom(g, next, sub, rep, dfn, u);
    }
    DropsEverywhere(g, next, rep);
    ReachesSelf(g, 0);
  }

  lemma CrossingEdge(g: Graph, next: seq<set<nat>>, sub: seq<seq<nat>>, rep: seq<nat>, dfn: seq<nat>, u: nat, w: nat)
    requires WellFormed(g) && Condensed(g, next, sub, rep, dfn)
    requires Reaches(g, 0, u) && Edge(g, u, w) && rep[w] != rep[u]
    ensures w in next[rep[u]]
  {
    ReachesTrans(g, 0, u, rep[u]);
    assert LeavesComponent(g, rep, rep[u], w);
  }

  lemma CondensedCovers(g: Graph, next: seq<set<nat>>, sub: seq<seq<nat>>, rep: seq<nat>, dfn: seq<nat>)
    requires WellFormed(g) && |g| > 0 && Condensed(g, next, sub, rep, dfn)
    ensures Covers(g, next, rep, ReachSet(g, 0))
  {
    ReachesSelf(g, 0);
    ReachSetClosed(g, 0);
    var reached := ReachSet(g, 0);
    forall u: nat, w: nat | u in reached && Edge(g, u, w)
      ensures w in reached && (rep[w] == rep[u] || w in next[rep[u]])
    {
      if rep[w] != rep[u] {
        CrossingEdge(g, next, sub, rep, dfn, u, w);
      }
    }
  }

  // ---------------------------------------------------------------- the condensed graph is acyclic

  /** Along a chain the rank drops. */
  lemma {:induction false} ChainDescends(next: seq<set<nat>>, rep: seq<nat>, reached: set<nat>, rank: seq<nat>,
                                         p: seq<nat>, i: nat, j: nat)
    requires Ranked(next, rep, reached, rank) && Chain(next, rep, p) && p[0] in reached && i <= j < |p|
    ensures p[i] in reached && p[j] in reached && (i < j ==> rank[p[j]] < rank[p[i]])
    decreases j
  {
    if j > 0 {
      ChainDescends(next, rep, reached, rank, p, if i < j then i else i - 1, j - 1);
      assert p[j] in next[rep[p[j - 1]]];
    }
  }

  /** The representative graph is acyclic: no chain comes back to a component it left. */
  lemma CondensedAcyclic(g: Graph, next: seq<set<nat>>, sub: seq<seq<nat>>, rep: seq<nat>, dfn: seq<nat>, p: seq<nat>,
                         i: nat, j: nat)
    requires WellFormed(g) && |g| > 0 && Condensed(g, next, sub, rep, dfn)
    requires Chain(next, rep, p) && p[0] in ReachSet(g, 0) && i < j < |p|
    ensures rep[p[i]] != rep[p[j]]
  {
    CondensedIsRanked(g, next, sub, rep, dfn);
    ChainDescends(next, rep, ReachSet(g, 0), ReachCounts(g), p, i, j);
  }

  // ---------------------------------------------------------------- the enumeration

  class PathEnumerator {
    const next: seq<set<nat>>
    const rep: seq<nat>
    var stack: seq<nat>
    var paths: seq<seq<nat>>

    constructor (next: seq<set<nat>>, rep: seq<nat>)
      ensures this.next == next && this.rep == rep && stack == [] && paths == []
    {
      this.next, this.rep, stack, paths := next, rep, [], [];
    }

    /** `dfs_on_spanning_tree`: appends every maximal chain that extends the stack, once,
        and returns the stack without its last element. */
    method Dfs(index: nat, ghost reached: set<nat>, ghost rank: seq<nat>)
      requires Ranked(next, rep, reached, rank) && index in reached
      requires Chain(next, rep, stack) && stack[0] == 0 && stack[|stack| - 1] == index
      modifies this
      ensures stack == old(stack)[..|old(stack)| - 1]
      ensures |old(paths)| <= |paths| && paths[..|old(paths)|] == old(paths)
      ensures forall q :: q in paths[|old(paths)|..] <==> old(stack) <= q && MaximalChain(next, rep, q)
      ensures Distinct(paths[|old(paths)|..])
      decreases rank[index], 0
    {
      ghost var st, ps := stack, paths;
      var current := rep[index];
      if next[current] == {} {
        paths := paths + [stack];
        OnlyItself(next, rep, st);
        assert paths[|ps|..] == [st];
        assert st in [st];
      } else {
        var todo := next[current];
        ghost var done := {};
        assert paths[|ps|..] == [];
        while todo != {}
          invariant todo <= next[current] && todo !! done && next[current] <= todo + done
          invariant stack == st && |ps| <= |paths| && paths[..|ps|] == ps
          invariant forall q :: q in paths[|ps|..] <==> Through(next, rep, st, done, q)
          invariant Distinct(paths[|ps|..])
          decreases todo
        {
          var child :| child in todo;
          assert child in next[rep[index]] && child in reached;
          ghost var before := paths;
          ChainPush(next, rep, st, child);
          stack := stack + [child];
          Dfs(child, reached, rank);
          JoinBatches(ps, before, paths, next, rep, st, done, child);
          todo, done := todo - {child}, done + {child};
        }
        MustExtend(next, rep, st, done);
      }
      stack := stack[..|stack| - 1];
    }

    /** `get_paths`: exactly the maximal chains from block 0, each once. */
    method GetPaths(ghost reached: set<nat>, ghost rank: seq<nat>) returns (result: seq<seq<nat>>)
      requires Ranked(next, rep, reached, rank)
      modifies this
      ensures forall q :: q in result <==> MaximalChain(next, rep, q)
      ensures Distinct(result)
    {
      paths, stack := [], [0];
      Dfs(0, reached, rank);
      result := paths;
      assert paths[0..] == paths;
      assert forall q :: MaximalChain(next, rep, q) ==> [0] <= q;
    }
  }

  /** `solve_scc` followed by `get_paths`, for every graph in which no edge enters block 0. */
  method CondenseAndEnumerate(g: Graph)
    returns (next: seq<set<nat>>, sub: seq<seq<nat>>, rep: seq<nat>, dfn: seq<nat>, paths: seq<seq<nat>>)
    requires WellFormed(g) && |g| > 0 && forall u :: !Edge(g, u, 0)
    ensures Condensed(g, next, sub, rep, dfn)
    ensures Distinct(paths) && forall q :: q in paths <==> MaximalChain(next, rep, q)
  {
    var condenser := new Condenser(g);
    condenser.SolveScc(g);
    next, sub, rep, dfn := condenser.next, condenser.sub, condenser.rep, condenser.dfn;
    CondensedIsRanked(g, next, sub, rep, dfn);
    var enumerator := new PathEnumerator(next, rep);
    paths := enumerator.GetPaths(ReachSet(g, 0), ReachCounts(g));
  }

  /** A maximal chain that extends `st` through a block of `done`. */
  ghost predicate Through(next: seq<set<nat>>, rep: seq<nat>, st: seq<nat>, done: set<nat>, q: seq<nat>) {
    |st| < |q| && st <= q && q[|st|] in done && MaximalChain(next, rep, q)
  }

  lemma ChainPush(next: seq<set<nat>>, rep: seq<nat>, st: seq<nat>, child: nat)
    requires Chain(next, rep, st) && child in next[rep[st[|st| - 1]]] && child < |rep| && rep[child] < |rep|
    ensures Chain(next, rep, st + [child])
  {
    var p := st + [child];
    forall i, j | 0 <= i && j == i + 1 && j < |p| ensures p[j] in next[rep[p[i]]] {
      if j < |st| {
        assert st[j] in next[rep[st[i]]];
      }
    }
  }

  lemma ChainStep(next: seq<set<nat>>, rep: seq<nat>, q: seq<nat>, i: nat)
    requires Chain(next, rep, q) && i + 1 < |q|
    ensures q[i + 1] in next[rep[q[i]]]
  {
  }

  lemma OnlyItself(next: seq<set<nat>>, rep: seq<nat>, st: seq<nat>)
    requires Chain(next, rep, st) && next[rep[st[|st| - 1]]] == {}
    ensures forall q :: st <= q && Chain(next, rep, q) ==> q == st
  {
    forall q | st <= q && Chain(next, rep, q) ensures q == st {
      if |st| < |q| {
        ChainStep(next, rep, q, |st| - 1);
      }
    }
  }

  lemma MustExtend(next: seq<set<nat>>, rep: seq<nat>, st: seq<nat>, done: set<nat>)
    requires Chain(next, rep, st) && next[rep[st[|st| - 1]]] != {} && next[rep[st[|st| - 1]]] <= done
    ensures forall q :: st <= q && MaximalChain(next, rep, q) ==> Through(next, rep, st, done, q)
  {
    forall q | st <= q && MaximalChain(next, rep, q) ensures Through(next, rep, st, done, q) {
      if |st| < |q| {
        ChainStep(next, rep, q, |st| - 1);
      }
    }
  }

  lemma ThroughChild(next: seq<set<nat>>, rep: seq<nat>, st: seq<nat>, done: set<nat>, child: nat, q: seq<nat>)
    ensures Through(next, rep, st, done + {child}, q) <==>
            Through(next, rep, st, done, q) || (st + [child] <= q && MaximalChain(next, rep, q))
  {
    if |st| < |q| && st <= q && q[|st|] == child {
      assert q[..|st| + 1] == st + [child];
    }
  }

  /** The chains through one more child join the chains found before without overlap. */
  lemma JoinBatches(ps: seq<seq<nat>>, before: seq<seq<nat>>, after: seq<seq<nat>>,
                    next: seq<set<nat>>, rep: seq<nat>, st: seq<nat>, done: set<nat>, child: nat)
    requires |ps| <= |before| <= |after| && before[..|ps|] == ps && after[..|before|] == before
    requires child !in done
    requires forall q :: q in before[|ps|..] <==> Through(next, rep, st, done, q)
    requires Distinct(before[|ps|..])
    requires forall q :: q in after[|before|..] <==> st + [child] <= q && MaximalChain(next, rep, q)
    requires Distinct(after[|before|..])
    ensures after[..|ps|] == ps
    ensures forall q :: q in after[|ps|..] <==> Through(next, rep, st, done + {child}, q)
    ensures Distinct(after[|ps|..])
  {
    var one, two := before[|ps|..], after[|before|..];
    assert after[|ps|..] == one + two;
    assert after[..|ps|] == after[..|before|][..|ps|];
    forall q ensures q in after[|ps|..] <==> Through(next, rep, st, done + {child}, q) {
      ThroughChild(next, rep, st, done, child, q);
    }
    forall i, j | 0 <= i < |one| && 0 <= j < |two| ensures one[i] != two[j] {
      assert one[i] in one && two[j] in two;
    }
  }

  // ---------------------------------------------------------------- coverage of the original graph

  /** The chain `q` passes the components of the path `p` in order: `at[i]` is where it meets the
      component of `p[i]`, and it moves on by one exactly when the path leaves a component. */
  ghost predicate Tracks(rep: seq<nat>, p: seq<nat>, q: seq<nat>, at: seq<nat>) {
    && |at| == |p| > 0 && at[0] == 0
    && (forall i :: 0 <= i < |p| ==> p[i] < |rep| && at[i] < |q| && q[at[i]] < |rep| && rep[q[at[i]]] == rep[p[i]])
    && (forall i, j :: 0 <= i && j == i + 1 && j < |p| ==> at[j] == at[i] + (if rep[p[j]] == rep[p[i]] then 0 else 1))
  }

  lemma TracksPush(rep: seq<nat>, p: seq<nat>, q: seq<nat>, at: seq<nat>, w: nat, q': seq<nat>)
    requires Tracks(rep, p, q, at) && at[|at| - 1] == |q| - 1 && w < |rep|
    requires q' == if rep[w] == rep[p[|p| - 1]] then q else q + [w]
    ensures Tracks(rep, p + [w], q', at + [|q'| - 1])
  {
    var p', at' := p + [w], at + [|q'| - 1];
    forall i, j | 0 <= i && j == i + 1 && j < |p'|
      ensures at'[j] == at'[i] + (if rep[p'[j]] == rep[p'[i]] then 0 else 1)
    {
      if j < |p| {
        assert at[j] == at[i] + (if rep[p[j]] == rep[p[i]] then 0 else 1);
      }
    }
  }

  /** Every original path from block 0 is followed, component by component, by a chain. */
  lemma {:induction false} ChainFollowsPath(g: Graph, next: seq<set<nat>>, rep: seq<nat>, reached: set<nat>,
                                            p: seq<nat>)
    returns (q: seq<nat>, at: seq<nat>)
    requires Covers(g, next, rep, reached) && IsPath(g, p) && p[0] == 0
    ensures Chain(next, rep, q) && q[0] == 0 && p[|p| - 1] in reached
    ensures Tracks(rep, p, q, at) && at[|p| - 1] == |q| - 1
    decreases |p|
  {
    if |p| == 1 {
      q, at := [0], [0];
    } else {
      var h, w := p[..|p| - 1], p[|p| - 1];
      assert IsPath(g, h) by {
        forall i, j | 0 <= i && j == i + 1 && j < |h| ensures Edge(g, h[i], h[j]) {
          assert Edge(g, p[i], p[j]);
        }
      }
      var c, before := ChainFollowsPath(g, next, rep, reached, h);
      assert Edge(g, h[|h| - 1], w) by { assert Edge(g, p[|p| - 2], p[|p| - 1]); }
      if rep[w] == rep[h[|h| - 1]] {
        q := c;
      } else {
        ChainPush(next, rep, c, w);
        q := c + [w];
      }
      at := before + [|q| - 1];
      TracksPush(rep, h, c, before, w, q);
      assert h + [w] == p;
    }
  }

  /** A chain extends to a maximal one. */
  lemma {:induction false} ExtendToMaximal(next: seq<set<nat>>, rep: seq<nat>, reached: set<nat>, rank: seq<nat>,
                                           p: seq<nat>)
    returns (q: seq<nat>)
    requires Ranked(next, rep, reached, rank) && Chain(next, rep, p) && p[0] == 0 && p[|p| - 1] in reached
    ensures p <= q && MaximalChain(next, rep, q)
    decreases rank[p[|p| - 1]]
  {
    var last := p[|p| - 1];
    if next[rep[last]] == {} {
      q := p;
    } else {
      var w :| w in next[rep[last]];
      assert w in reached;
      ChainPush(next, rep, p, w);
      q := ExtendToMaximal(next, rep, reached, rank, p + [w]);
    }
  }

  /** No path of the original graph is missed: some enumerated path passes, in the same order,
      every component that the original path visits. */
  lemma EveryPathCovered(g: Graph, next: seq<set<nat>>, sub: seq<seq<nat>>, rep: seq<nat>, dfn: seq<nat>, p: seq<nat>)
    returns (q: seq<nat>, at: seq<nat>)
    requires WellFormed(g) && |g| > 0 && Condensed(g, next, sub, rep, dfn) && IsPath(g, p) && p[0] == 0
    ensures MaximalChain(next, rep, q) && Tracks(rep, p, q, at)
  {
    CondensedIsRanked(g, next, sub, rep, dfn);
    CondensedCovers(g, next, sub, rep, dfn);
    q, at := CoverPath(g, next, rep, ReachSet(g, 0), ReachCounts(g), p);
  }

  lemma CoverPath(g: Graph, next: seq<set<nat>>, rep: seq<nat>, reached: set<nat>, rank: seq<nat>, p: seq<nat>)
    returns (q: seq<nat>, at: seq<nat>)
    requires Covers(g, next, rep, reached) && Ranked(next, rep, reached, rank) && IsPath(g, p) && p[0] == 0
    ensures MaximalChain(next, rep, q) && Tracks(rep, p, q, at)
  {
    var c;
    c, at := ChainFollowsPath(g, next, rep, reached, p);
    ChainDescends(next, rep, reached, rank, c, |c| - 1, |c| - 1);
    q := ExtendToMaximal(next, rep, reached, rank, c);
    TracksExtend(rep, p, c, q, at);
  }

  lemma TracksExtend(rep: seq<nat>, p: seq<nat>, c: seq<nat>, q: seq<nat>, at: seq<nat>)
    requires Tracks(rep, p, c, at) && c <= q
    ensures Tracks(rep, p, q, at)
  {
    assert forall j :: 0 <= j < |c| ==> q[j] == c[j];
  }
}
