/** The block order of rCanary: `collect_edges` gathers the edges of the unwind-free graph with
    repetitions, `topo_order` runs Kahn's algorithm on them with a max-heap. */
module TopoOrder {
  import opened Wrappers
  import opened Digraph
  import opened Paths

  /** The terminators that have successors here; every other kind has none. */
  datatype Terminator = Goto(target: nat) | SwitchInt(targets: seq<nat>) | Drop(target: nat)
                      | Assert(target: nat) | Call(destination: Option<nat>) | Other

  function Targets(t: Terminator): (r: seq<nat>) {
    match t
    case Goto(target) => [target]
    case SwitchInt(targets) => targets
    case Drop(target) => [target]
    case Assert(target) => [target]
    case Call(Some(target)) => [target]
    case Call(None) => []
    case Other => []
  }

  type Edges = seq<seq<nat>>

  ghost predicate InRange(e: Edges) {
    forall u, k :: 0 <= u < |e| && 0 <= k < |e[u]| ==> e[u][k] < |e|
  }

  /** No edge enters the entry block. */
  ghost predicate EntryFree(e: Edges) {
    forall u :: 0 <= u < |e| ==> 0 !in e[u]
  }

  /** The edges as a graph, without repetitions. */
  ghost function AsGraph(e: Edges): (g: Graph) {
    seq(|e|, u requires 0 <= u < |e| => set k | 0 <= k < |e[u]| :: e[u][k])
  }

  lemma AsGraphEdge(e: Edges, u: nat, v: nat)
    ensures Edge(AsGraph(e), u, v) <==> u < |e| && v in e[u]
  {
    if u < |e| && v in e[u] {
      var k :| 0 <= k < |e[u]| && e[u][k] == v;
    }
  }

  // ---------------------------------------------------------------- collecting edges

  function Count(s: seq<nat>, v: nat): (c: nat)
    ensures c > 0 <==> v in s
    decreases |s|
  {
    if s == [] then 0 else (if s[0] == v then 1 else 0) + Count(s[1..], v)
  }

  lemma {:induction false} CountConcat(a: seq<nat>, b: seq<nat>, v: nat)
    ensures Count(a + b, v) == Count(a, v) + Count(b, v)
    decreases |a|
  {
    if a == [] {
      assert a + b == b;
    } else {
      assert (a + b)[1..] == a[1..] + b;
      CountConcat(a[1..], b, v);
    }
  }

  /** How often `v` occurs as a target of the blocks below `n` outside `gone`. */
  ghost function Incoming(e: Edges, gone: set<nat>, n: nat, v: nat): (c: nat)
    requires n <= |e|
  {
    if n == 0 then 0 else Incoming(e, gone, n - 1, v) + (if n - 1 in gone then 0 else Count(e[n - 1], v))
  }

  /** How often block `u` below `n` targets `v`. */
  ghost function EdgesBelow(e: Edges, n: nat, u: nat, v: nat): (c: nat)
    requires n <= |e|
  {
    if u < n then Count(e[u], v) else 0
  }

  /** `pre` as built from the blocks below `n`: each edge contributes one entry. */
  ghost predicate PreOf(e: Edges, pre: seq<seq<nat>>, n: nat)
    requires n <= |e| == |pre|
  {
    forall u: nat, v: nat :: v < |e| ==> Count(pre[v], u) == EdgesBelow(e, n, u, v)
  }

  /** `collect_edges`, from empty levels and predecessor lists. */
  method CollectEdges(body: seq<Terminator>) returns (e: Edges, pre: seq<seq<nat>>, lev: seq<nat>)
    requires forall b, k :: 0 <= b < |body| && 0 <= k < |Targets(body[b])| ==> Targets(body[b])[k] < |body|
    ensures |e| == |pre| == |lev| == |body| && InRange(e)
    ensures forall b :: 0 <= b < |body| ==> e[b] == Targets(body[b])
    ensures forall v :: 0 <= v < |body| ==> lev[v] == Incoming(e, {}, |e|, v)
    ensures PreOf(e, pre, |e|)
  {
    e := seq(|body|, b requires 0 <= b < |body| => Targets(body[b]));
    pre, lev := seq(|body|, b => []), seq(|body|, b => 0);
    assert PreOf(e, pre, 0) by {
      assert forall v :: 0 <= v < |e| ==> pre[v] == [];
    }
    for block := 0 to |body|
      invariant |pre| == |lev| == |body| == |e|
      invariant forall v :: 0 <= v < |body| ==> lev[v] == Incoming(e, {}, block, v)
      invariant PreOf(e, pre, block)
    {
      ghost var lev0, pre0 := lev, pre;
      lev, pre := CollectBlock(block, e[block], lev, pre);
      PreNext(e, block, lev0, pre0, lev, pre);
    }
  }

  /** The targets in `done` of `block` have been counted and entered. */
  ghost predicate Entered(block: nat, done: seq<nat>, lev0: seq<nat>, pre0: seq<seq<nat>>, lev: seq<nat>,
                          pre: seq<seq<nat>>) {
    && |lev| == |lev0| == |pre| == |pre0|
    && (forall v :: 0 <= v < |lev| ==> lev[v] == lev0[v] + Count(done, v))
    && (forall u, v: nat :: v < |lev| ==>
          Count(pre[v], u) == Count(pre0[v], u) + (if u == block then Count(done, v) else 0))
  }

  lemma PreNext(e: Edges, block: nat, lev0: seq<nat>, pre0: seq<seq<nat>>, lev: seq<nat>, pre: seq<seq<nat>>)
    requires block < |e| == |pre0| && PreOf(e, pre0, block) && Entered(block, e[block], lev0, pre0, lev, pre)
    ensures PreOf(e, pre, block + 1)
  {
    forall u: nat, v: nat | v < |e| ensures Count(pre[v], u) == EdgesBelow(e, block + 1, u, v) {
      assert Count(pre0[v], u) == EdgesBelow(e, block, u, v);
    }
  }

  lemma CountPush(s: seq<nat>, x: nat, v: nat)
    ensures Count(s + [x], v) == Count(s, v) + (if v == x then 1 else 0)
  {
    CountConcat(s, [x], v);
    assert [x][1..] == [];
  }

  lemma EnterOne(block: nat, done: seq<nat>, lev0: seq<nat>, pre0: seq<seq<nat>>, lev: seq<nat>, pre: seq<seq<nat>>,
                 x: nat)
    requires Entered(block, done, lev0, pre0, lev, pre) && x < |lev|
    ensures Entered(block, done + [x], lev0, pre0, lev[x := lev[x] + 1], pre[x := pre[x] + [block]])
  {
    var lev', pre' := lev[x := lev[x] + 1], pre[x := pre[x] + [block]];
    forall v: nat | v < |lev| ensures lev'[v] == lev0[v] + Count(done + [x], v) {
      CountPush(done, x, v);
    }
    forall u, v: nat | v < |lev|
      ensures Count(pre'[v], u) == Count(pre0[v], u) + (if u == block then Count(done + [x], v) else 0)
    {
      CountPush(done, x, v);
      CountPush(pre[x], block, u);
    }
  }

  /** The inner loop: one level and one predecessor entry for each target. */
  method CollectBlock(block: nat, result: seq<nat>, lev0: seq<nat>, pre0: seq<seq<nat>>)
    returns (lev: seq<nat>, pre: seq<seq<nat>>)
    requires |lev0| == |pre0| && forall k :: 0 <= k < |result| ==> result[k] < |lev0|
    ensures Entered(block, result, lev0, pre0, lev, pre)
  {
    lev, pre := lev0, pre0;
    for k := 0 to |result|
      invariant Entered(block, result[..k], lev0, pre0, lev, pre)
    {
      EnterOne(block, result[..k], lev0, pre0, lev, pre, result[k]);
      assert result[..k + 1] == result[..k] + [result[k]];
      lev, pre := lev[result[k] := lev[result[k]] + 1], pre[result[k] := pre[result[k]] + [block]];
    }
    assert result[..|result|] == result;
  }

  // ---------------------------------------------------------------- Kahn's algorithm

  ghost predicate HasPred(e: Edges, v: nat) {
    exists u :: 0 <= u < |e| && v in e[u]
  }

  ghost predicate PredsIn(e: Edges, v: nat, s: seq<nat>) {
    forall u :: 0 <= u < |e| && v in e[u] ==> u in s
  }

  lemma {:induction false} IncomingZero(e: Edges, gone: set<nat>, n: nat, v: nat)
    requires n <= |e|
    ensures Incoming(e, gone, n, v) == 0 <==> forall u :: 0 <= u < n && v in e[u] ==> u in gone
    decreases n
  {
    if n > 0 {
      IncomingZero(e, gone, n - 1, v);
    }
  }

  /** Taking one more block away lowers the count by its edges. */
  lemma {:induction false} IncomingRemove(e: Edges, gone: set<nat>, n: nat, u: nat, v: nat)
    requires n <= |e| && u !in gone
    ensures Incoming(e, gone, n, v) == Incoming(e, gone + {u}, n, v) + (if u < n then Count(e[u], v) else 0)
    decreases n
  {
    if n > 0 {
      IncomingRemove(e, gone, n - 1, u, v);
    }
  }

  ghost function Members(s: seq<nat>): set<nat> {
    set v | v in s
  }

  /** Every emitted block comes after all its predecessors. */
  ghost predicate Ordered(e: Edges, topo: seq<nat>) {
    forall i :: 0 <= i < |topo| ==> PredsIn(e, topo[i], topo[..i])
  }

  /** Blocks are ready once all their edges are consumed; `topo` has been emitted, `q` waits. */
  ghost predicate Ready(e: Edges, topo: seq<nat>, q: multiset<nat>, v: nat) {
    v in q || v in topo
  }

  ghost predicate QueueInv(e: Edges, topo: seq<nat>, q: multiset<nat>, lev: seq<nat>) {
    && |lev| == |e|
    && Distinct(topo) && (forall i :: 0 <= i < |topo| ==> topo[i] < |e|)
    && (forall v :: v in q ==> v < |e| && q[v] == 1 && v !in topo)
    && (forall v :: 0 <= v < |e| && Ready(e, topo, q, v) ==> lev[v] == 0 && (v == 0 || HasPred(e, v)))
    && (forall v :: 0 <= v < |e| && lev[v] == 0 && HasPred(e, v) ==> Ready(e, topo, q, v))
    && Ready(e, topo, q, 0)
  }

  /** Levels count the edges from blocks not yet emitted, those of `top` from `k` on included. */
  ghost predicate Levels(e: Edges, topo: seq<nat>, lev: seq<nat>, rest: seq<nat>) {
    |lev| == |e| && forall v :: 0 <= v < |e| ==> lev[v] == Incoming(e, Members(topo), |e|, v) + Count(rest, v)
  }

  /** What `topo_order` emits: each block at most once, after all its predecessors, and
      exactly block 0 and the blocks all of whose (some) predecessors are emitted. */
  ghost predicate IsOrder(e: Edges, topo: seq<nat>) {
    && Distinct(topo) && (forall i :: 0 <= i < |topo| ==> topo[i] < |e|)
    && Ordered(e, topo)
    && (forall v :: 0 <= v < |e| ==> (v in topo <==> v == 0 || (HasPred(e, v) && PredsIn(e, v, topo))))
  }

  lemma MaxExists(q: multiset<nat>) returns (m: nat)
    requires q != multiset{}
    ensures m in q && forall y :: y in q ==> y <= m
    decreases |q|
  {
    m :| m in q;
    var rest := q - multiset{m};
    assert forall y :: y in q ==> y == m || y in rest;
    if rest != multiset{} {
      var k := MaxExists(rest);
      if k > m {
        m := k;
      }
    }
  }

  ghost function Rest(e: Edges, topo: seq<nat>): set<nat> {
    set v | 0 <= v < |e| && v !in topo
  }

  /** `topo_order`, for any graph without edges into block 0: it ends, never lowers a level
      that is 0, and emits `IsOrder`. */
  method Order(e: Edges, lev0: seq<nat>) returns (topo: seq<nat>)
    requires |e| > 0 && InRange(e) && EntryFree(e) && |lev0| == |e|
    requires forall v :: 0 <= v < |e| ==> lev0[v] == Incoming(e, {}, |e|, v)
    ensures IsOrder(e, topo)
  {
    var lev := lev0;
    var q: multiset<nat> := multiset{0};
    topo := [];
    StartQueue(e, lev);
    while q != multiset{}
      invariant QueueInv(e, topo, q, lev) && Levels(e, topo, lev, []) && Ordered(e, topo)
      decreases Rest(e, topo)
    {
      ghost var m := MaxExists(q);
      var top :| top in q && forall y :: y in q ==> y <= top;
      ghost var before := topo;
      assert Ready(e, topo, q, top);
      EmitQueue(e, topo, q, lev, top);
      EmitOrder(e, topo, lev, top);
      q := q - multiset{top};
      topo := topo + [top];
      assert top in Rest(e, before) && top !in Rest(e, topo);
      lev, q := Relax(e, topo, top, lev, q);
    }
    FinishOrder(e, topo, q, lev);
  }

  lemma StartQueue(e: Edges, lev: seq<nat>)
    requires |e| > 0 && InRange(e) && EntryFree(e) && |lev| == |e|
    requires forall v :: 0 <= v < |e| ==> lev[v] == Incoming(e, {}, |e|, v)
    ensures QueueInv(e, [], multiset{0}, lev) && Levels(e, [], lev, [])
  {
    assert Members([]) == {};
    forall v | 0 <= v < |e| ensures lev[v] == 0 <==> !HasPred(e, v) {
      IncomingZero(e, {}, |e|, v);
    }
  }

  /** Emitting a ready block moves it from the queue to the order. */
  lemma EmitQueue(e: Edges, topo: seq<nat>, q: multiset<nat>, lev: seq<nat>, top: nat)
    requires QueueInv(e, topo, q, lev) && top in q
    ensures QueueInv(e, topo + [top], q - multiset{top}, lev)
  {
    var done, left := topo + [top], q - multiset{top};
    assert forall v :: v in left <==> v in q && v != top;
    assert forall v :: v in done <==> v in topo || v == top;
    assert forall v :: Ready(e, done, left, v) <==> Ready(e, topo, q, v);
    assert Distinct(done);
  }

  /** It keeps the order, and its edges are now the ones left to consume. */
  lemma EmitOrder(e: Edges, topo: seq<nat>, lev: seq<nat>, top: nat)
    requires Levels(e, topo, lev, []) && Ordered(e, topo) && top < |e| && lev[top] == 0 && top !in topo
    ensures Levels(e, topo + [top], lev, e[top]) && Ordered(e, topo + [top])
  {
    var done := topo + [top];
    assert Members(done) == Members(topo) + {top};
    forall v | 0 <= v < |e| ensures lev[v] == Incoming(e, Members(done), |e|, v) + Count(e[top], v) {
      IncomingRemove(e, Members(topo), |e|, top, v);
    }
    IncomingZero(e, Members(topo), |e|, top);
    forall i | 0 <= i < |done| ensures PredsIn(e, done[i], done[..i]) {
      assert i < |topo| ==> done[..i] == topo[..i];
      assert i == |topo| ==> done[..i] == topo;
    }
  }

  /** The inner loop: one level down for each edge of `top`; a level that reaches 0 queues its
      block. */
  method Relax(e: Edges, topo: seq<nat>, top: nat, lev0: seq<nat>, q0: multiset<nat>)
    returns (lev: seq<nat>, q: multiset<nat>)
    requires InRange(e) && EntryFree(e) && top < |e|
    requires QueueInv(e, topo, q0, lev0) && Levels(e, topo, lev0, e[top])
    ensures QueueInv(e, topo, q, lev) && Levels(e, topo, lev, [])
  {
    lev, q := lev0, q0;
    assert e[top][0..] == e[top];
    for k := 0 to |e[top]|
      invariant QueueInv(e, topo, q, lev) && Levels(e, topo, lev, e[top][k..])
    {
      var next := e[top][k];
      assert e[top][k..] == [next] + e[top][k + 1..];
      ghost var lev1, q1 := lev, q;
      RestStep(e, topo, lev, next, e[top][k + 1..]);
      lev := lev[next := lev[next] - 1];
      if lev[next] == 0 {
        q := q + multiset{next};
      }
      RelaxOne(e, topo, q1, lev1, top, next);
    }
    assert e[top][|e[top]|..] == [];
  }

  /** Consuming one edge. */
  lemma RestStep(e: Edges, topo: seq<nat>, lev: seq<nat>, next: nat, rest: seq<nat>)
    requires Levels(e, topo, lev, [next] + rest) && next < |e|
    ensures lev[next] > 0 && Levels(e, topo, lev[next := lev[next] - 1], rest)
  {
    forall v ensures Count([next] + rest, v) == Count(rest, v) + (if v == next then 1 else 0) {
      assert ([next] + rest)[1..] == rest;
    }
  }

  lemma RelaxOne(e: Edges, topo: seq<nat>, q: multiset<nat>, lev: seq<nat>, top: nat, next: nat)
    requires EntryFree(e) && top < |e| && next in e[top] && next < |e|
    requires QueueInv(e, topo, q, lev) && lev[next] > 0
    ensures QueueInv(e, topo, if lev[next] == 1 then q + multiset{next} else q, lev[next := lev[next] - 1])
  {
    assert HasPred(e, next);
    assert !Ready(e, topo, q, next);
    var q' := if lev[next] == 1 then q + multiset{next} else q;
    assert forall v :: v in q' <==> v in q || (lev[next] == 1 && v == next);
  }

  lemma FinishOrder(e: Edges, topo: seq<nat>, q: multiset<nat>, lev: seq<nat>)
    requires q == multiset{} && QueueInv(e, topo, q, lev) && Levels(e, topo, lev, []) && Ordered(e, topo)
    ensures IsOrder(e, topo)
  {
    forall v | 0 <= v < |e| ensures v in topo <==> v == 0 || (HasPred(e, v) && PredsIn(e, v, topo)) {
      IncomingZero(e, Members(topo), |e|, v);
      assert Ready(e, topo, q, v) <==> v in topo;
    }
  }

  // ---------------------------------------------------------------- when everything reachable is emitted

  /** No edge between reachable blocks closes a cycle. */
  ghost predicate NoCycle(g: Graph) {
    forall u, v :: Edge(g, u, v) && Reaches(g, 0, u) ==> !Reaches(g, v, u)
  }

  /** Every predecessor of a reachable block is reachable. */
  ghost predicate PredsReachable(g: Graph) {
    forall u, v :: Edge(g, u, v) && Reaches(g, 0, v) ==> Reaches(g, 0, u)
  }

  lemma AsGraphWellFormed(e: Edges)
    requires InRange(e)
    ensures WellFormed(AsGraph(e)) && |AsGraph(e)| == |e|
  {
  }

  /** Only reachable blocks are emitted. */
  lemma {:induction false} EmittedReachable(e: Edges, topo: seq<nat>, i: nat)
    requires |e| > 0 && InRange(e) && IsOrder(e, topo) && i < |topo|
    ensures Reaches(AsGraph(e), 0, topo[i])
    decreases i
  {
    var g, v := AsGraph(e), topo[i];
    AsGraphWellFormed(e);
    if v == 0 {
      ReachesSelf(g, 0);
    } else {
      assert v in topo;
      var u :| 0 <= u < |e| && v in e[u];
      assert PredsIn(e, v, topo[..i]);
      var k :| 0 <= k < i && topo[k] == u;
      EmittedReachable(e, topo, k);
      AsGraphEdge(e, u, v);
      ReachesEdge(g, u, v);
      ReachesTrans(g, 0, u, v);
    }
  }

  /** A reachable block other than the entry has a predecessor. */
  lemma ReachedHasPred(e: Edges, v: nat)
    requires InRange(e) && v != 0 && Reaches(AsGraph(e), 0, v)
    ensures HasPred(e, v)
  {
    var g := AsGraph(e);
    var p :| IsPath(g, p) && p[0] == 0 && p[|p| - 1] == v;
    assert Edge(g, p[|p| - 2], p[|p| - 1]);
    AsGraphEdge(e, p[|p| - 2], v);
  }

  /** Without cycles, and with all predecessors reachable, every reachable block is emitted:
      otherwise one that reaches most would have an emitted-free predecessor that reaches more. */
  lemma {:induction false} ReachableEmitted(e: Edges, topo: seq<nat>, v: nat)
    requires |e| > 0 && InRange(e) && IsOrder(e, topo) && NoCycle(AsGraph(e)) && PredsReachable(AsGraph(e))
    requires Reaches(AsGraph(e), 0, v)
    ensures v in topo
    decreases |e| - |ReachSet(AsGraph(e), v)|
  {
    var g := AsGraph(e);
    AsGraphWellFormed(e);
    if v != 0 {
      ReachedHasPred(e, v);
      forall u | 0 <= u < |e| && v in e[u] ensures u in topo {
        AsGraphEdge(e, u, v);
        ReachesMore(g, u, v);
        ReachableEmitted(e, topo, u);
      }
      assert PredsIn(e, v, topo);
    }
  }

  /** A predecessor that is not on a cycle reaches strictly more. */
  lemma ReachesMore(g: Graph, u: nat, v: nat)
    requires WellFormed(g) && Edge(g, u, v) && !Reaches(g, v, u)
    ensures |ReachSet(g, v)| < |ReachSet(g, u)| <= |g|
  {
    ReachesEdge(g, u, v);
    forall w | w in ReachSet(g, v) ensures w in ReachSet(g, u) {
      ReachesTrans(g, u, v, w);
    }
    ReachesSelf(g, u);
    assert u in ReachSet(g, u) && u !in ReachSet(g, v);
    SmallerSet(ReachSet(g, v), ReachSet(g, u));
    BoundedSet(ReachSet(g, u), |g|);
  }

  lemma {:induction false} BoundedSet(s: set<nat>, n: nat)
    requires forall x :: x in s ==> x < n
    ensures |s| <= n
    decreases n
  {
    if n > 0 {
      BoundedSet(s - {n - 1}, n - 1);
    } else {
      assert s == {};
    }
  }

  ghost predicate Before(topo: seq<nat>, u: nat, v: nat) {
    exists i, j :: 0 <= i < j < |topo| && topo[i] == u && topo[j] == v
  }

  /** Along a path of emitted blocks the position only grows. */
  lemma {:induction false} PathAdvances(e: Edges, topo: seq<nat>, p: seq<nat>)
    requires InRange(e) && IsOrder(e, topo) && IsPath(AsGraph(e), p)
    requires forall k :: 0 <= k < |p| ==> p[k] in topo
    ensures p[0] == p[|p| - 1] || Before(topo, p[0], p[|p| - 1])
    decreases |p|
  {
    if |p| > 1 {
      var g := AsGraph(e);
      var h := p[..|p| - 1];
      assert IsPath(g, h) by {
        forall i, j | 0 <= i && j == i + 1 && j < |h| ensures Edge(g, h[i], h[j]) {
          assert Edge(g, p[i], p[j]);
        }
      }
      PathAdvances(e, topo, h);
      var u, v := p[|p| - 2], p[|p| - 1];
      assert Edge(g, u, v);
      EdgeAdvances(e, topo, u, v);
      BeforeTrans(topo, p[0], u, v);
    }
  }

  lemma EdgeAdvances(e: Edges, topo: seq<nat>, u: nat, v: nat)
    requires IsOrder(e, topo) && Edge(AsGraph(e), u, v) && v in topo
    ensures Before(topo, u, v)
  {
    AsGraphEdge(e, u, v);
    var j :| 0 <= j < |topo| && topo[j] == v;
    assert PredsIn(e, v, topo[..j]);
    var i :| 0 <= i < j && topo[..j][i] == u;
    assert topo[i] == u;
  }

  lemma BeforeTrans(topo: seq<nat>, a: nat, b: nat, c: nat)
    requires Distinct(topo) && (a == b || Before(topo, a, b)) && Before(topo, b, c)
    ensures Before(topo, a, c) && a != c
  {
    var i, j :| 0 <= i < j < |topo| && topo[i] == b && topo[j] == c;
    if a != b {
      var k, m :| 0 <= k < m < |topo| && topo[k] == a && topo[m] == b;
      assert m == i;
    }
  }

  /** The order holds exactly the reachable blocks if and only if no reachable edge closes a
      cycle and every predecessor of a reachable block is reachable. */
  lemma EmitsReachableIff(e: Edges, topo: seq<nat>)
    requires |e| > 0 && InRange(e) && IsOrder(e, topo)
    ensures Members(topo) == ReachSet(AsGraph(e), 0) <==> NoCycle(AsGraph(e)) && PredsReachable(AsGraph(e))
  {
    var g := AsGraph(e);
    AsGraphWellFormed(e);
    forall v | v in topo ensures v in ReachSet(g, 0) {
      var i :| 0 <= i < |topo| && topo[i] == v;
      EmittedReachable(e, topo, i);
    }
    if NoCycle(g) && PredsReachable(g) {
      forall v | v in ReachSet(g, 0) ensures v in topo {
        ReachableEmitted(e, topo, v);
      }
    }
    if Members(topo) == ReachSet(g, 0) {
      forall u: nat, v: nat | Edge(g, u, v) && Reaches(g, 0, v) ensures Reaches(g, 0, u) {
        assert v in Members(topo);
        EdgeAdvances(e, topo, u, v);
        assert u in Members(topo);
      }
      forall u: nat, v: nat | Edge(g, u, v) && Reaches(g, 0, u) ensures !Reaches(g, v, u) {
        NoWayBack(e, topo, u, v);
      }
    }
  }

  lemma NoWayBack(e: Edges, topo: seq<nat>, u: nat, v: nat)
    requires |e| > 0 && InRange(e) && IsOrder(e, topo) && Members(topo) == ReachSet(AsGraph(e), 0)
    requires Edge(AsGraph(e), u, v) && Reaches(AsGraph(e), 0, u)
    ensures !Reaches(AsGraph(e), v, u)
  {
    var g := AsGraph(e);
    AsGraphWellFormed(e);
    ReachesEdge(g, u, v);
    ReachesTrans(g, 0, u, v);
    assert v in Members(topo);
    EdgeAdvances(e, topo, u, v);
    forall p | IsPath(g, p) && p[0] == v ensures p[|p| - 1] != u {
      forall k | 0 <= k < |p| ensures p[k] in topo {
        PathPrefix(g, p, k);
        ReachesTrans(g, 0, v, p[k]);
        assert p[k] in Members(topo);
      }
      PathAdvances(e, topo, p);
      if p[|p| - 1] == u {
        BeforeTrans(topo, v, u, v);
      }
    }
  }

  lemma PathPrefix(g: Graph, p: seq<nat>, k: nat)
    requires IsPath(g, p) && k < |p|
    ensures Reaches(g, p[0], p[k])
  {
    var q := p[..k + 1];
    assert IsPath(g, q) by {
      forall i, j | 0 <= i && j == i + 1 && j < |q| ensures Edge(g, q[i], q[j]) {
        assert Edge(g, p[i], p[j]);
      }
    }
  }

  /** A loop of blocks 1 and 2 behind the entry is reachable and never emitted. */
  lemma LoopCutShort(topo: seq<nat>)
    requires IsOrder([[1], [2], [1]], topo)
    ensures topo == [0] && Reaches(AsGraph([[1], [2], [1]]), 0, 1) && Reaches(AsGraph([[1], [2], [1]]), 0, 2)
  {
    var e: Edges := [[1], [2], [1]];
    AsGraphEdge(e, 0, 1);
    AsGraphEdge(e, 1, 2);
    ReachesEdge(AsGraph(e), 0, 1);
    ReachesEdge(AsGraph(e), 1, 2);
    ReachesTrans(AsGraph(e), 0, 1, 2);
    assert 1 in e[2] && 2 in e[1];
    assert |topo| > 1 ==> topo[0] != topo[1];
    forall i | 0 <= i < |topo| ensures topo[i] == 0 {
      LoopNotEmitted(e, topo, i);
    }
    assert 0 in topo;
  }

  lemma {:induction false} LoopNotEmitted(e: Edges, topo: seq<nat>, i: nat)
    requires e == [[1], [2], [1]] && IsOrder(e, topo) && i < |topo|
    ensures topo[i] == 0
    decreases i
  {
    if topo[i] != 0 {
      var other := 3 - topo[i];
      assert PredsIn(e, topo[i], topo[..i]) && topo[i] in e[other];
      var j :| 0 <= j < i && topo[j] == other;
      LoopNotEmitted(e, topo, j);
    }
  }

  /** `visit_body` walks the order: every block but the entry finds a non-empty list of
      predecessors, all of them visited before it. */
  lemma PredecessorsFinished(e: Edges, pre: seq<seq<nat>>, topo: seq<nat>, i: nat)
    requires |e| == |pre| && InRange(e) && PreOf(e, pre, |e|) && IsOrder(e, topo) && i < |topo| && topo[i] != 0
    ensures pre[topo[i]] != [] && forall k :: 0 <= k < |pre[topo[i]]| ==> pre[topo[i]][k] in topo[..i]
  {
    var v := topo[i];
    assert v in topo;
    var u: nat :| u < |e| && v in e[u];
    assert Count(pre[v], u) == EdgesBelow(e, |e|, u, v);
    forall k | 0 <= k < |pre[v]| ensures pre[v][k] in topo[..i] {
      var w := pre[v][k];
      assert Count(pre[v], w) == EdgesBelow(e, |e|, w, v);
      assert PredsIn(e, v, topo[..i]);
    }
  }
}
