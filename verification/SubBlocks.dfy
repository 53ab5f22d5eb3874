/** When `check` looks at the sub-blocks of a component: exactly when it has more than one successor. */
module SubBlocks {
  import opened Digraph
  import Scc
  import opened AliasGraph
  import opened Explorer

  /** With at most one successor the sub-block orders make no difference: neither to the calls of
      a visit nor to what a leaf extracts. */
  lemma OrdersIgnored(p: Program, q: Program, c: Config, d: Config)
    requires p.Valid() && q.Valid() && q == p.(orders := q.orders) && c.block < |p.next|
    requires |p.next[p.rep[c.block]]| <= 1
    ensures IsChild(p, c, d) <==> IsChild(q, c, d)
    ensures LeafResults(p, c) == LeafResults(q, c)
  {
  }

  /** What state `t` at the end of the block of `c` leads to is found: its leaf results, or the calls
      of the branches. */
  ghost predicate Found(p: Program, c: Config, t: State)
    requires p.Valid() && c.block < |p.next|
  {
    if IsLeaf(p, c) then p.leaf(t.values, t.aliasSet) <= LeafResults(p, c)
    else forall d :: Follows(p, p.rep[c.block], t, d) ==> IsChild(p, c, d)
  }

  /** Exactly: an order of sub-blocks is explored when there is more than one successor; with one,
      only if it leaves the state alone; with none, only if it adds nothing to extract. */
  lemma OrderExploredIff(p: Program, c: Config, i: nat)
    requires p.Valid() && c.block < |p.next| && i < |p.orders[p.rep[c.block]]|
    ensures var r, s := p.rep[c.block], After(p, c);
            var t := FlowAll(p, p.orders[r][i], s);
            Found(p, c, t) <==>
            if |p.next[r]| > 1 then true
            else if |p.next[r]| == 1 then t == s
            else p.leaf(t.values, t.aliasSet) <= p.leaf(s.values, s.aliasSet)
  {
    var r := p.rep[c.block];
    var t := FlowAll(p, p.orders[r][i], After(p, c));
    assert p.hasSub[r];
    if |p.next[r]| == 1 {
      var w :| w in p.next[r];
      OnlySuccessor(p, c, w);
      assert Follows(p, r, t, Config(w, t));
    }
  }

  // ---------------------------------------------------------------- a loop behind the entry

  /** Block 0 leads into a loop of blocks 1 and 2, which block 1 leaves through the exits. */
  function LoopGraph(exits: set<nat>): (g: Digraph.Graph) {
    [{1}, {2} + exits, {1}, {}, {}]
  }

  /** Its condensation: blocks 1 and 2 are one component. */
  function LoopNext(exits: set<nat>): (next: seq<set<nat>>) {
    [{1}, exits, {1}, {}, {}]
  }

  const LOOP_REP: seq<nat> := [0, 1, 1, 3, 4]
  const LOOP_SUB: seq<seq<nat>> := [[], [2], [], [], []]
  const LOOP_DFN: seq<nat> := [0, 1, 2, 3, 4]

  /** Block 2 adds an entry to the parent array, and what is extracted shows the array's length. */
  function LoopProgram(exits: set<nat>): (p: Program) {
    Program(LoopNext(exits), LOOP_REP, [false, true, false, false, false], [[], [[2]], [], [], []],
            [[], [], [], [], []], [NoSwitch, NoSwitch, NoSwitch, NoSwitch, NoSwitch], map[],
            (b, v, a) => if b == 2 then (v, a + [|a|]) else (v, a), (b, v, a) => (v, a, 0, 0),
            (v, a) => {Mark(|a|)})
  }

  function Mark(n: nat): (x: RetAlias) {
    RetAlias(n, [], true, true, 0, [], true, true)
  }

  /** Without exit or with one, the visit of the loop loses what block 2 does; with two it does not. */
  lemma SubBlockSkipped(exits: set<nat>, s: State)
    requires exits == {} || exits == {3} || exits == {3, 4}
    ensures var p := LoopProgram(exits);
            p.Valid() && (Found(p, Config(1, s), FlowAll(p, [2], After(p, Config(1, s)))) <==> exits == {3, 4})
  {
    var p, c := LoopProgram(exits), Config(1, s);
    var t := s.(aliasSet := s.aliasSet + [|s.aliasSet|]);
    LoopFlows(exits, s);
    OrderExploredIff(p, c, 0);
    assert p.leaf(t.values, t.aliasSet) == {Mark(|t.aliasSet|)} && p.leaf(s.values, s.aliasSet) == {Mark(|s.aliasSet|)};
    assert Mark(|t.aliasSet|) !in {Mark(|s.aliasSet|)};
  }

  lemma LoopFlows(exits: set<nat>, s: State)
    ensures var p := LoopProgram(exits);
            After(p, Config(1, s)) == s && FlowAll(p, [2], s) == s.(aliasSet := s.aliasSet + [|s.aliasSet|])
  {
    var p := LoopProgram(exits);
    assert InsertAll(s.constant, []) == s.constant;
    assert [2][1..] == [];
  }

  /** The blocks that `u` reaches. */
  function From(exits: set<nat>, u: nat): (s: set<nat>) {
    if u == 0 then {0, 1, 2} + exits else if u <= 2 then {1, 2} + exits else {u}
  }

  lemma LoopReaches(exits: set<nat>, u: nat, v: nat)
    requires exits <= {3, 4} && u < 5 && v < 5
    ensures Reaches(LoopGraph(exits), u, v) <==> v in From(exits, u)
  {
    var g := LoopGraph(exits);
    assert Closed(g, From(exits, u));
    assert u in From(exits, u);
    if Reaches(g, u, v) {
      ClosedKeepsReach(g, From(exits, u), u, v);
    }
    if v in From(exits, u) {
      ReachesSelf(g, u);
      if u != v {
        LoopPath(exits, u, v);
      }
    }
  }

  lemma LoopPath(exits: set<nat>, u: nat, v: nat)
    requires exits <= {3, 4} && u < 3 && v in From(exits, u) && u != v
    ensures Reaches(LoopGraph(exits), u, v)
  {
    var g := LoopGraph(exits);
    var path := if u == 1 || (u != 1 && v == 1) then [u, v] else [u, 1, v];
    assert IsPath(g, path);
  }

  /** The condensed table at one block. */
  ghost predicate CondensedAt(g: Digraph.Graph, next: seq<set<nat>>, sub: seq<seq<nat>>, rep: seq<nat>, dfn: seq<nat>,
                              u: nat)
  {
    && u < |g| == |next| == |sub| == |rep| == |dfn| && rep[u] < |g|
    && (!Reaches(g, 0, u) ==> rep[u] == u)
    && (Reaches(g, 0, u) ==> Mutual(g, rep[u], u) && rep[rep[u]] == rep[u] && dfn[rep[u]] <= dfn[u])
    && (rep[u] != u || !Reaches(g, 0, u) ==> next[u] == g[u] && sub[u] == [])
    && (rep[u] == u && Reaches(g, 0, u) ==>
          ((forall w :: w in next[u] <==> Scc.LeavesComponent(g, rep, u, w)) && Scc.ListsMembers(rep, dfn, u, sub[u])))
  }

  /** Two reached blocks are in one component or not. */
  ghost predicate PairCondensed(g: Digraph.Graph, rep: seq<nat>, u: nat, v: nat) {
    && u < |rep| && v < |rep|
    && (Reaches(g, 0, u) && Reaches(g, 0, v) ==> (rep[u] == rep[v] <==> Mutual(g, u, v)))
  }

  lemma CondensedFromBlocks(g: Digraph.Graph, next: seq<set<nat>>, sub: seq<seq<nat>>, rep: seq<nat>, dfn: seq<nat>)
    requires |next| == |sub| == |rep| == |dfn| == |g|
    requires forall u :: 0 <= u < |g| ==> CondensedAt(g, next, sub, rep, dfn, u)
    requires forall u, v :: 0 <= u < |g| && 0 <= v < |g| ==> PairCondensed(g, rep, u, v)
    ensures Scc.Condensed(g, next, sub, rep, dfn)
  {
    forall u | 0 <= u < |g| && !Reaches(g, 0, u) ensures rep[u] == u && next[u] == g[u] && sub[u] == [] {
      assert CondensedAt(g, next, sub, rep, dfn, u);
    }
    forall u | 0 <= u < |g| && Reaches(g, 0, u)
      ensures rep[u] < |g| && Mutual(g, rep[u], u) && rep[rep[u]] == rep[u] && dfn[rep[u]] <= dfn[u]
    {
      assert CondensedAt(g, next, sub, rep, dfn, u);
    }
    forall u, v | 0 <= u < |g| && 0 <= v < |g| && Reaches(g, 0, u) && Reaches(g, 0, v)
      ensures rep[u] == rep[v] <==> Mutual(g, u, v)
    {
      assert PairCondensed(g, rep, u, v);
    }
    forall u | 0 <= u < |g| && Reaches(g, 0, u) && rep[u] != u ensures next[u] == g[u] && sub[u] == [] {
      assert CondensedAt(g, next, sub, rep, dfn, u);
    }
    forall u | 0 <= u < |g| && Reaches(g, 0, u) && rep[u] == u
      ensures (forall w :: w in next[u] <==> Scc.LeavesComponent(g, rep, u, w)) && Scc.ListsMembers(rep, dfn, u, sub[u])
    {
      assert CondensedAt(g, next, sub, rep, dfn, u);
    }
  }

  /** The table is what `solve_scc` makes of the graph. */
  lemma LoopCondensed(exits: set<nat>)
    requires exits <= {3, 4}
    ensures Scc.Condensed(LoopGraph(exits), LoopNext(exits), LOOP_SUB, LOOP_REP, LOOP_DFN)
  {
    forall u | 0 <= u < 5 ensures CondensedAt(LoopGraph(exits), LoopNext(exits), LOOP_SUB, LOOP_REP, LOOP_DFN, u) {
      LoopBlock(exits, u);
    }
    forall u, v | 0 <= u < 5 && 0 <= v < 5 ensures PairCondensed(LoopGraph(exits), LOOP_REP, u, v) {
      LoopPair(exits, u, v);
    }
    CondensedFromBlocks(LoopGraph(exits), LoopNext(exits), LOOP_SUB, LOOP_REP, LOOP_DFN);
  }

  lemma LoopPair(exits: set<nat>, u: nat, v: nat)
    requires exits <= {3, 4} && u < 5 && v < 5
    ensures PairCondensed(LoopGraph(exits), LOOP_REP, u, v)
  {
    LoopReaches(exits, 0, u);
    LoopReaches(exits, 0, v);
    LoopReaches(exits, u, v);
    LoopReaches(exits, v, u);
  }

  lemma LoopBlock(exits: set<nat>, u: nat)
    requires exits <= {3, 4} && u < 5
    ensures CondensedAt(LoopGraph(exits), LoopNext(exits), LOOP_SUB, LOOP_REP, LOOP_DFN, u)
  {
    var g, r := LoopGraph(exits), LOOP_REP[u];
    LoopReaches(exits, 0, u);
    LoopReaches(exits, r, u);
    LoopReaches(exits, u, r);
    if r == u {
      forall w | w in LoopNext(exits)[u] ensures Scc.LeavesComponent(g, LOOP_REP, u, w) {
        assert Edge(g, u, w);
      }
    }
  }
}
