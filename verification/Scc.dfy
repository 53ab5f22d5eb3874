/** Condensation of a control-flow graph: Tarjan's algorithm with in-place rewriting of
    the representatives' successor sets (MoP and SafeDrop share this code). */
module Scc {
  import opened Digraph

  /** A snapshot of the block table together with the working data of the traversal. */
  datatype State = State(
    next: seq<set<nat>>,      // blocks[i].next
    sub: seq<seq<nat>>,       // blocks[i].scc_sub_blocks
    rep: seq<nat>,            // scc_indices
    stack: seq<nat>,
    inStack: set<nat>,
    dfn: seq<nat>,
    low: seq<nat>,
    time: nat)

  // ---------------------------------------------------------------- the condensed graph

  /** `w` is a successor of a member of the component of `r` and lies outside it. */
  ghost predicate LeavesComponent(g: Graph, rep: seq<nat>, r: nat, w: nat)
    requires |rep| == |g|
  {
    && w < |g| && rep[w] != r
    && exists u :: 0 <= u < |g| && rep[u] == r && Edge(g, u, w)
  }

  /** `sub` lists, by increasing discovery number, the members of `r`'s component but `r`. */
  ghost predicate ListsMembers(rep: seq<nat>, dfn: seq<nat>, r: nat, sub: seq<nat>)
    requires |dfn| == |rep|
  {
    && (forall i :: 0 <= i < |sub| ==> sub[i] < |rep| && sub[i] != r && rep[sub[i]] == r)
    && (forall v :: 0 <= v < |rep| && v != r && rep[v] == r ==> v in sub)
    && (forall i, j :: 0 <= i < j < |sub| ==> dfn[sub[i]] < dfn[sub[j]])
  }

  /** What `solve_scc` promises: `rep` names the strongly connected component of every
      reached block by its first-discovered member, whose successors and sub-blocks
      describe the whole component; everything else is as before. */
  ghost predicate Condensed(g: Graph, next: seq<set<nat>>, sub: seq<seq<nat>>, rep: seq<nat>, dfn: seq<nat>) {
    && |next| == |sub| == |rep| == |dfn| == |g|
    && (forall u :: 0 <= u < |g| && !Reaches(g, 0, u) ==> rep[u] == u && next[u] == g[u] && sub[u] == [])
    && (forall u :: 0 <= u < |g| && Reaches(g, 0, u) ==>
          rep[u] < |g| && Mutual(g, rep[u], u) && rep[rep[u]] == rep[u] && dfn[rep[u]] <= dfn[u])
    && (forall u, v :: 0 <= u < |g| && 0 <= v < |g| && Reaches(g, 0, u) && Reaches(g, 0, v) ==>
          (rep[u] == rep[v] <==> Mutual(g, u, v)))
    && (forall u :: 0 <= u < |g| && Reaches(g, 0, u) && rep[u] != u ==> next[u] == g[u] && sub[u] == [])
    && (forall u :: 0 <= u < |g| && Reaches(g, 0, u) && rep[u] == u ==>
          && (forall w :: w in next[u] <==> LeavesComponent(g, rep, u, w))
          && ListsMembers(rep, dfn, u, sub[u]))
  }

  // ---------------------------------------------------------------- invariants of the traversal

  ghost predicate Seen(s: State, v: nat) {
    v < |s.dfn| && (s.dfn[v] > 0 || (v == 0 && s.time > 0))
  }

  /** Discovered and already assigned to a component. */
  ghost predicate Done(s: State, v: nat) {
    Seen(s, v) && v !in s.inStack
  }

  ghost function Unseen(dfn: seq<nat>, time: nat): set<nat> {
    set v | 0 <= v < |dfn| && !(dfn[v] > 0 || (v == 0 && time > 0))
  }

  ghost predicate Shape(g: Graph, r: Relation, s: State) {
    && |s.next| == |s.sub| == |s.rep| == |s.dfn| == |s.low| == |g|
    && (forall v: nat :: Seen(s, v) ==> s.dfn[v] < s.time && (0, v) in r)
    && (forall i :: 0 <= i < |s.stack| ==> Seen(s, s.stack[i]))
    && (forall i, j :: 0 <= i < j < |s.stack| ==> s.dfn[s.stack[i]] < s.dfn[s.stack[j]])
    && (forall v :: v in s.inStack <==> v in s.stack)
  }

  /** Grey blocks are the open calls: each reaches everything above it on the stack, and
      every block of the stack reaches a grey block at or below it. */
  ghost predicate GreyInv(g: Graph, r: Relation, s: State, grey: set<nat>) {
    && grey <= s.inStack
    && (forall i, j :: 0 <= i <= j < |s.stack| && s.stack[i] in grey ==> (s.stack[i], s.stack[j]) in r)
    && (forall i :: 0 <= i < |s.stack| ==> FallsToGrey(r, s, grey, i))
    && (forall v: nat, w: nat :: Seen(s, v) && v !in grey && Edge(g, v, w) ==> Seen(s, w))
  }

  ghost predicate FallsToGrey(r: Relation, s: State, grey: set<nat>, i: nat)
    requires i < |s.stack|
  {
    exists j :: 0 <= j <= i && s.stack[j] in grey && (s.stack[i], s.stack[j]) in r
  }

  /** Finished components are closed under edges and are whole mutual-reachability classes,
      named by their first-discovered block. */
  ghost predicate DoneInv(g: Graph, r: Relation, s: State)
    requires |s.rep| == |s.dfn| == |g|
  {
    && (forall v: nat, w: nat :: Done(s, v) && Edge(g, v, w) ==> Done(s, w))
    && (forall v: nat :: Done(s, v) ==>
          Done(s, s.rep[v]) && s.rep[s.rep[v]] == s.rep[v] && (s.rep[v], v) in r && (v, s.rep[v]) in r
          && s.dfn[s.rep[v]] <= s.dfn[v])
    && (forall u: nat, v: nat :: Done(s, u) && Done(s, v) && (u, v) in r && (v, u) in r ==> s.rep[u] == s.rep[v])
    && (forall v :: 0 <= v < |g| && !Done(s, v) ==> s.rep[v] == v)
  }

  /** The block table differs from the original only at finished representatives. */
  ghost predicate TableInv(g: Graph, s: State)
    requires |s.next| == |s.sub| == |s.rep| == |s.dfn| == |g|
  {
    && (forall v :: 0 <= v < |g| && (!Done(s, v) || s.rep[v] != v) ==> s.next[v] == g[v] && s.sub[v] == [])
    && (forall v: nat :: Done(s, v) && s.rep[v] == v ==> DescribesComponent(g, s, v))
  }

  ghost predicate DescribesComponent(g: Graph, s: State, v: nat)
    requires |s.next| == |s.sub| == |s.rep| == |s.dfn| == |g|
    requires v < |g|
  {
    && (forall w :: w in s.next[v] <==> LeavesComponent(g, s.rep, v, w))
    && ListsMembers(s.rep, s.dfn, v, s.sub[v])
  }

  ghost predicate Inv(g: Graph, r: Relation, s: State, grey: set<nat>) {
    Shape(g, r, s) && GreyInv(g, r, s, grey) && DoneInv(g, r, s) && TableInv(g, s)
  }

  /** What any part of the traversal leaves alone. */
  ghost predicate Extends(s: State, t: State) {
    && |t.dfn| == |s.dfn| && |t.low| == |s.low| && |s.low| == |s.dfn|
    && s.stack <= t.stack
    && s.time <= t.time
    && (forall v: nat :: Seen(s, v) ==> Seen(t, v) && t.dfn[v] == s.dfn[v] && t.low[v] == s.low[v])
    && (forall v: nat :: Seen(t, v) && !Seen(s, v) ==> s.time <= t.dfn[v])
    && (forall v: nat :: Done(s, v) ==> Done(t, v))
    && s.inStack <= t.inStack
  }

  lemma ExtendsUnseen(s: State, t: State)
    requires Extends(s, t)
    ensures Unseen(t.dfn, t.time) <= Unseen(s.dfn, s.time)
  {
    forall v | v in Unseen(t.dfn, t.time) ensures v in Unseen(s.dfn, s.time) {
      assert Seen(s, v) ==> Seen(t, v);
    }
  }

  lemma ExtendsTrans(s: State, t: State, u: State)
    requires Extends(s, t) && Extends(t, u)
    ensures Extends(s, u)
  {
  }

  /** The blocks from position `k` up have no edge into `below` to a number under `bound`. */
  ghost predicate LowBounds(g: Graph, s: State, k: nat, below: set<nat>, bound: nat) {
    forall i, w: nat :: k <= i < |s.stack| && Edge(g, s.stack[i], w) && w in below && w < |s.dfn| ==> bound <= s.dfn[w]
  }

  /** `low[v]` is the number of a block that `v` reaches, at or below position `k`. */
  ghost predicate LowWitness(r: Relation, s: State, v: nat, k: nat)
    requires v < |s.low|
  {
    exists j :: 0 <= j <= k && j < |s.stack| && s.stack[j] < |s.dfn| && s.dfn[s.stack[j]] == s.low[v]
                && (v, s.stack[j]) in r
  }

  /** Between two edges of `index`; `a` is the state in which its visit began. */
  ghost predicate Visiting(g: Graph, r: Relation, a: State, s: State, index: nat, seen: set<nat>) {
    && Shape(g, r, a) && Shape(g, r, s) && Extends(a, s)
    && index < |g| && !Seen(a, index) && seen <= g[index]
    && |s.stack| > |a.stack| && s.stack[|a.stack|] == index
    && s.low[index] <= s.dfn[index]
    && LowWitness(r, s, index, |a.stack|)
    && LowBounds(g, s, |a.stack| + 1, a.inStack, s.low[index])
    && (forall w :: w in seen ==> Seen(s, w))
    && (forall w :: w in seen && w in a.inStack ==> s.low[index] <= s.dfn[w])
  }

  /** The edge loop of `index`, with the blocks in `seen` followed. */
  ghost predicate Following(g: Graph, r: Relation, a: State, s: State, grey: set<nat>, index: nat, seen: set<nat>) {
    Visiting(g, r, a, s, index, seen) && Inv(g, r, s, grey + {index})
  }

  /** What a finished visit of `index` promises about its low-link. */
  ghost predicate Visited(g: Graph, r: Relation, a: State, s: State, index: nat) {
    && index < |s.low| && |s.low| == |s.dfn| && Seen(s, index) && Extends(a, s)
    && s.low[index] <= s.dfn[index]
    && (s.stack == a.stack <==> s.low[index] == s.dfn[index])
    && (s.stack != a.stack ==>
          && |s.stack| > |a.stack| && s.stack[|a.stack|] == index
          && |a.stack| > 0 && LowWitness(r, s, index, |a.stack| - 1))
    && LowBounds(g, s, |a.stack|, a.inStack, s.low[index])
  }

  // ---------------------------------------------------------------- opening a block

  ghost function Opened(s: State, index: nat): State
    requires index < |s.dfn| == |s.low|
  {
    s.(dfn := s.dfn[index := s.time], low := s.low[index := s.time], time := s.time + 1,
       inStack := s.inStack + {index}, stack := s.stack + [index])
  }

  lemma OpenVisits(g: Graph, r: Relation, a: State, index: nat)
    requires Shape(g, r, a) && index < |g| && !Seen(a, index)
    requires index == 0 <==> a.time == 0
    requires (0, index) in r && (index, index) in r
    ensures Visiting(g, r, a, Opened(a, index), index, {})
    ensures Unseen(Opened(a, index).dfn, Opened(a, index).time) < Unseen(a.dfn, a.time)
    ensures forall v: nat :: Seen(Opened(a, index), v) <==> Seen(a, v) || v == index
    ensures forall v: nat :: Done(Opened(a, index), v) <==> Done(a, v)
  {
    var s := Opened(a, index);
    assert forall v: nat :: Seen(s, v) <==> Seen(a, v) || v == index;
    assert index !in a.stack;
    assert forall v: nat :: Done(s, v) <==> Done(a, v);
    assert index in Unseen(a.dfn, a.time) && index !in Unseen(s.dfn, s.time);
    assert s.stack[|a.stack|] == index;
  }

  lemma OpenKeepsGrey(g: Graph, r: Relation, a: State, grey: set<nat>, index: nat)
    requires Shape(g, r, a) && GreyInv(g, r, a, grey) && index < |g| && !Seen(a, index)
    requires forall v: nat :: Seen(Opened(a, index), v) <==> Seen(a, v) || v == index
    requires forall x :: x in grey + {index} ==> (x, index) in r
    ensures GreyInv(g, r, Opened(a, index), grey + {index})
  {
    var s := Opened(a, index);
    forall i | 0 <= i < |s.stack| ensures FallsToGrey(r, s, grey + {index}, i) {
      if i < |a.stack| {
        assert FallsToGrey(r, a, grey, i);
        var j :| 0 <= j <= i && a.stack[j] in grey && (a.stack[i], a.stack[j]) in r;
        assert s.stack[j] in grey + {index};
      } else {
        assert s.stack[i] == index;
      }
    }
  }

  /** Finished components survive any step that finishes nothing and renumbers nothing finished. */
  lemma DoneStable(g: Graph, r: Relation, s: State, t: State)
    requires Shape(g, r, s) && DoneInv(g, r, s) && TableInv(g, s)
    requires |t.dfn| == |s.dfn| && t.rep == s.rep && t.next == s.next && t.sub == s.sub
    requires forall v: nat :: Done(t, v) <==> Done(s, v)
    requires forall v: nat :: Done(s, v) ==> t.dfn[v] == s.dfn[v]
    ensures DoneInv(g, r, t) && TableInv(g, t)
  {
    forall v: nat | Done(t, v) && t.rep[v] == v ensures DescribesComponent(g, t, v) {
      assert DescribesComponent(g, s, v);
      forall i | 0 <= i < |s.sub[v]| ensures Done(s, s.sub[v][i]) {
        assert s.rep[s.sub[v][i]] == v;
      }
    }
  }

  // ---------------------------------------------------------------- the edges of a block

  lemma LowKeepsShape(g: Graph, r: Relation, a: State, s: State, index: nat, value: nat)
    requires Shape(g, r, s) && Extends(a, s) && index < |g| && !Seen(a, index)
    ensures Shape(g, r, s.(low := s.low[index := value])) && Extends(a, s.(low := s.low[index := value]))
    ensures forall v: nat :: Seen(s, v) <==> Seen(s.(low := s.low[index := value]), v)
  {
    var t := s.(low := s.low[index := value]);
    assert forall v: nat :: Seen(s, v) <==> Seen(t, v);
    assert forall v: nat :: Done(s, v) <==> Done(t, v);
  }

  lemma LowerLow(g: Graph, r: Relation, s: State, grey: set<nat>, index: nat, value: nat)
    requires Inv(g, r, s, grey) && index < |g|
    ensures Inv(g, r, s.(low := s.low[index := value]), grey)
  {
    var t := s.(low := s.low[index := value]);
    assert forall v: nat :: Seen(s, v) <==> Seen(t, v);
    assert forall v: nat :: Done(s, v) <==> Done(t, v);
    DoneStable(g, r, s, t);
    assert GreyInv(g, r, t, grey) by {
      forall i | 0 <= i < |t.stack| ensures FallsToGrey(r, t, grey, i) {
        assert FallsToGrey(r, s, grey, i);
      }
    }
  }

  /** An edge to a discovered block: `low` drops to its number when it is still open. */
  lemma EdgeToSeen(g: Graph, r: Relation, a: State, s: State, index: nat, seen: set<nat>, target: nat, value: nat)
    requires Visiting(g, r, a, s, index, seen)
    requires target in g[index] && Seen(s, target) && (index, target) in r
    requires value == if target in s.inStack && s.dfn[target] < s.low[index] then s.dfn[target] else s.low[index]
    ensures Visiting(g, r, a, s.(low := s.low[index := value]), index, seen + {target})
  {
    var t := s.(low := s.low[index := value]);
    SeenLowWitness(g, r, a, s, index, target, value);
    LowKeepsShape(g, r, a, s, index, value);
    assert LowBounds(g, t, |a.stack| + 1, a.inStack, value);
  }

  lemma SeenLowWitness(g: Graph, r: Relation, a: State, s: State, index: nat, target: nat, value: nat)
    requires Shape(g, r, s) && index < |g| && target < |g| && (index, target) in r
    requires |a.stack| < |s.stack| && s.stack[|a.stack|] == index && s.low[index] <= s.dfn[index]
    requires LowWitness(r, s, index, |a.stack|)
    requires value == if target in s.inStack && s.dfn[target] < s.low[index] then s.dfn[target] else s.low[index]
    ensures LowWitness(r, s.(low := s.low[index := value]), index, |a.stack|)
  {
    var t := s.(low := s.low[index := value]);
    if value != s.low[index] {
      var j :| 0 <= j < |s.stack| && s.stack[j] == target;
      assert j < |a.stack|;
      assert t.dfn[t.stack[j]] == t.low[index];
    } else {
      var j :| 0 <= j <= |a.stack| && s.dfn[s.stack[j]] == s.low[index] && (index, s.stack[j]) in r;
      assert t.dfn[t.stack[j]] == t.low[index];
    }
  }

  /** An edge to a new block whose visit took `s` to `m`: `low` takes the minimum. */
  lemma EdgeToNew(g: Graph, r: Relation, a: State, s: State, m: State, index: nat, seen: set<nat>, target: nat,
                  value: nat)
    requires Visiting(g, r, a, s, index, seen)
    requires target in g[index] && !Seen(s, target)
    requires forall w :: (target, w) in r ==> (index, w) in r
    requires Shape(g, r, m) && Visited(g, r, s, m, target)
    requires value == if m.low[target] < m.low[index] then m.low[target] else m.low[index]
    ensures Visiting(g, r, a, m.(low := m.low[index := value]), index, seen + {target})
  {
    var t := m.(low := m.low[index := value]);
    NewLowWitness(g, r, a, s, m, index, seen, target, value);
    NewLowBounds(g, a, s, m, index, target, value);
    ExtendsTrans(a, s, m);
    LowKeepsShape(g, r, a, m, index, value);
  }

  lemma NewLowBounds(g: Graph, a: State, s: State, m: State, index: nat, target: nat, value: nat)
    requires Extends(a, s) && Extends(s, m) && index < |s.low| && target < |m.low|
    requires |a.stack| < |s.stack| && Seen(s, index)
    requires forall v :: v in a.inStack ==> Seen(a, v)
    requires LowBounds(g, s, |a.stack| + 1, a.inStack, s.low[index])
    requires LowBounds(g, m, |s.stack|, s.inStack, m.low[target])
    requires value <= m.low[target] && value <= m.low[index]
    ensures LowBounds(g, m.(low := m.low[index := value]), |a.stack| + 1, a.inStack, value)
  {
    forall i, w: nat | |a.stack| + 1 <= i < |m.stack| && Edge(g, m.stack[i], w) && w in a.inStack && w < |m.dfn|
      ensures value <= m.dfn[w]
    {
      assert Seen(a, w);
      if i < |s.stack| {
        assert s.stack[i] == m.stack[i];
      }
    }
  }

  lemma NewLowWitness(g: Graph, r: Relation, a: State, s: State, m: State, index: nat, seen: set<nat>, target: nat,
                      value: nat)
    requires Visiting(g, r, a, s, index, seen)
    requires target < |g| && !Seen(s, target)
    requires forall w :: (target, w) in r ==> (index, w) in r
    requires Shape(g, r, m) && Visited(g, r, s, m, target)
    requires value == if m.low[target] < m.low[index] then m.low[target] else m.low[index]
    ensures LowWitness(r, m.(low := m.low[index := value]), index, |a.stack|)
  {
    var t := m.(low := m.low[index := value]);
    if value != m.low[index] {
      assert s.time <= m.dfn[target];
      var j :| 0 <= j < |s.stack| && m.dfn[m.stack[j]] == m.low[target] && (target, m.stack[j]) in r;
      assert j <= |a.stack|;
      assert t.dfn[t.stack[j]] == t.low[index];
    } else {
      var j :| 0 <= j <= |a.stack| && s.dfn[s.stack[j]] == s.low[index] && (index, s.stack[j]) in r;
      assert m.stack[j] == s.stack[j] && Seen(s, s.stack[j]);
      assert t.dfn[t.stack[j]] == t.low[index];
    }
  }

  lemma AfterSeen(g: Graph, r: Relation, a: State, s: State, t: State, grey: set<nat>, index: nat, seen: set<nat>,
                  target: nat)
    requires Visiting(g, r, a, s, index, seen) && Inv(g, r, s, grey + {index})
    requires target in g[index] && Seen(s, target) && (index, target) in r
    requires t == s.(low := s.low[index :=
      if target in s.inStack && s.dfn[target] < s.low[index] then s.dfn[target] else s.low[index]])
    ensures Visiting(g, r, a, t, index, seen + {target}) && Inv(g, r, t, grey + {index})
  {
    EdgeToSeen(g, r, a, s, index, seen, target, t.low[index]);
    LowerLow(g, r, s, grey + {index}, index, t.low[index]);
  }

  lemma AfterNew(g: Graph, r: Relation, a: State, s: State, m: State, t: State, grey: set<nat>, index: nat,
                 seen: set<nat>, target: nat)
    requires Visiting(g, r, a, s, index, seen) && Inv(g, r, m, grey + {index})
    requires target in g[index] && !Seen(s, target) && Visited(g, r, s, m, target)
    requires forall w :: (target, w) in r ==> (index, w) in r
    requires t == m.(low := m.low[index := if m.low[target] < m.low[index] then m.low[target] else m.low[index]])
    ensures Visiting(g, r, a, t, index, seen + {target}) && Inv(g, r, t, grey + {index})
    ensures Unseen(t.dfn, t.time) <= Unseen(s.dfn, s.time)
  {
    EdgeToNew(g, r, a, s, m, index, seen, target, t.low[index]);
    LowerLow(g, r, m, grey + {index}, index, t.low[index]);
    ExtendsUnseen(s, m);
  }

  // ---------------------------------------------------------------- a block that stays open

  /** Position `k` holds `index` and no grey block lies at or above it. */
  ghost predicate TopGrey(s: State, grey: set<nat>, k: nat, index: nat) {
    && k < |s.stack| && s.stack[k] == index
    && (forall i :: k <= i < |s.stack| ==> s.stack[i] !in grey)
    && (forall i, j :: 0 <= i < j < |s.stack| ==> s.stack[i] != s.stack[j])
  }

  lemma FindTopGrey(g: Graph, r: Relation, a: State, s: State, grey: set<nat>, index: nat)
    requires Shape(g, r, a) && Shape(g, r, s) && a.stack <= s.stack && grey <= a.inStack
    requires |a.stack| < |s.stack| && s.stack[|a.stack|] == index
    ensures TopGrey(s, grey, |a.stack|, index)
  {
    forall i | |a.stack| <= i < |s.stack| ensures s.stack[i] !in grey {
      assert forall p :: 0 <= p < |a.stack| ==> a.stack[p] == s.stack[p];
    }
  }

  /** A block whose low-link is below its own number falls to a grey block below it. */
  lemma LowReachesGrey(r: Relation, s: State, grey: set<nat>, k: nat, index: nat) returns (j: nat)
    requires Transitive(r) && TopGrey(s, grey, k, index) && index < |s.low|
    requires forall i :: 0 <= i < |s.stack| ==> FallsToGrey(r, s, grey + {index}, i)
    requires LowWitness(r, s, index, k) && index < |s.dfn| && s.low[index] < s.dfn[index]
    ensures k > 0 && LowWitness(r, s, index, k - 1)
    ensures j < k && s.stack[j] in grey && (index, s.stack[j]) in r
  {
    var i :| 0 <= i <= k && s.stack[i] < |s.dfn| && s.dfn[s.stack[i]] == s.low[index] && (index, s.stack[i]) in r;
    assert i < k;
    assert FallsToGrey(r, s, grey + {index}, i);
    j :| 0 <= j <= i && s.stack[j] in grey + {index} && (s.stack[i], s.stack[j]) in r;
  }

  lemma StillFalls(r: Relation, s: State, grey: set<nat>, k: nat, index: nat, below: nat)
    requires Transitive(r) && TopGrey(s, grey, k, index)
    requires forall i :: 0 <= i < |s.stack| ==> FallsToGrey(r, s, grey + {index}, i)
    requires below < k && s.stack[below] in grey && (index, s.stack[below]) in r
    ensures forall i :: 0 <= i < |s.stack| ==> FallsToGrey(r, s, grey, i)
  {
    forall i | 0 <= i < |s.stack| ensures FallsToGrey(r, s, grey, i) {
      assert FallsToGrey(r, s, grey + {index}, i);
      var j :| 0 <= j <= i && s.stack[j] in grey + {index} && (s.stack[i], s.stack[j]) in r;
      if s.stack[j] !in grey {
        assert j == k;
      }
    }
  }

  lemma VisitShrinksUnseen(g: Graph, r: Relation, a: State, s: State, index: nat, seen: set<nat>)
    requires Visiting(g, r, a, s, index, seen)
    ensures Unseen(s.dfn, s.time) < Unseen(a.dfn, a.time) && s.time > 0
  {
    assert index in Unseen(a.dfn, a.time) && Seen(s, s.stack[|a.stack|]);
  }

  lemma StaysOpen(g: Graph, r: Relation, a: State, s: State, grey: set<nat>, index: nat)
    requires index < |g| && Transitive(r) && Visiting(g, r, a, s, index, g[index])
    requires Inv(g, r, s, grey + {index}) && s.low[index] < s.dfn[index] && grey <= a.inStack
    ensures Inv(g, r, s, grey) && Visited(g, r, a, s, index)
  {
    FindTopGrey(g, r, a, s, grey, index);
    var j := LowReachesGrey(r, s, grey, |a.stack|, index);
    StillFalls(r, s, grey, |a.stack|, index, j);
    StaysGrey(g, r, s, grey, |a.stack|, index);
    OpenLowBounds(g, r, a, s, index);
  }

  /** With all its edges followed and every block falling to another grey one, `index` need not
      be grey any more. */
  lemma StaysGrey(g: Graph, r: Relation, s: State, grey: set<nat>, k: nat, index: nat)
    requires index < |g| && GreyInv(g, r, s, grey + {index}) && TopGrey(s, grey, k, index)
    requires forall i :: 0 <= i < |s.stack| ==> FallsToGrey(r, s, grey, i)
    requires forall w :: w in g[index] ==> Seen(s, w)
    ensures GreyInv(g, r, s, grey)
  {
  }

  lemma OpenLowBounds(g: Graph, r: Relation, a: State, s: State, index: nat)
    requires index < |g| && Visiting(g, r, a, s, index, g[index])
    ensures LowBounds(g, s, |a.stack|, a.inStack, s.low[index])
  {
  }

  // ---------------------------------------------------------------- a finished component

  /** The blocks of the stack from position `k` up. */
  ghost function Segment(s: State, k: nat): set<nat> {
    set i | k <= i < |s.stack| :: s.stack[i]
  }

  ghost function DoneSet(s: State): set<nat> {
    set v | 0 <= v < |s.dfn| && Done(s, v)
  }

  /** `t` is `s` after the segment from `k` up has been popped into the component of `index`. */
  ghost predicate CollapsedTo(g: Graph, s: State, k: nat, index: nat, t: State) {
    var seg := Segment(s, k);
    && k < |s.stack| && |s.next| == |s.sub| == |s.rep| == |s.dfn| == |g| && index < |g|
    && t.dfn == s.dfn && t.low == s.low && t.time == s.time
    && t.stack == s.stack[..k] && t.inStack == s.inStack - seg
    && |t.rep| == |s.rep| && (forall v :: 0 <= v < |g| ==> t.rep[v] == if v in seg then index else s.rep[v])
    && |t.next| == |s.next| && t.next == s.next[index := t.next[index]]
    && (forall w: nat :: w in t.next[index] <==> w < |g| && t.rep[w] != index && exists x :: x in seg && Edge(g, x, w))
    && t.sub == s.sub[index := s.stack[k + 1..]]
  }

  /** Nothing leaves the segment of a root except into finished components. */
  lemma SegmentClosed(g: Graph, r: Relation, s: State, grey: set<nat>, k: nat, index: nat, below: set<nat>)
    requires Shape(g, r, s) && TopGrey(s, grey, k, index)
    requires forall v: nat, w: nat :: Seen(s, v) && v !in grey + {index} && Edge(g, v, w) ==> Seen(s, w)
    requires forall w :: Edge(g, index, w) ==> Seen(s, w)
    requires forall v: nat, w: nat :: Done(s, v) && Edge(g, v, w) ==> Done(s, w)
    requires LowBounds(g, s, k, below, s.dfn[index])
    requires forall i :: 0 <= i < k ==> s.stack[i] in below
    ensures Closed(g, Segment(s, k) + DoneSet(s))
  {
    forall x, w | x in Segment(s, k) + DoneSet(s) && Edge(g, x, w) ensures w in Segment(s, k) + DoneSet(s) {
      if x in Segment(s, k) {
        var i :| k <= i < |s.stack| && s.stack[i] == x;
        assert Seen(s, w);
        if w in s.inStack {
          var p :| 0 <= p < |s.stack| && s.stack[p] == w;
          assert p >= k;
        }
      }
    }
  }

  /** The segment of a root is mutually reachable with it. */
  lemma SegmentMutual(g: Graph, r: Relation, s: State, grey: set<nat>, k: nat, index: nat, i: nat)
    requires Shape(g, r, s) && TopGrey(s, grey, k, index) && k <= i < |s.stack|
    requires (s.stack[k], s.stack[i]) in r && FallsToGrey(r, s, grey + {index}, i)
    requires Keeps(r, Segment(s, k) + DoneSet(s))
    ensures var x := s.stack[i];
      (index, x) in r && (x, index) in r && Seen(s, x) && s.dfn[index] <= s.dfn[x] && x in s.inStack
  {
    var j :| 0 <= j <= i && s.stack[j] in grey + {index} && (s.stack[i], s.stack[j]) in r;
    assert s.stack[i] in Segment(s, k);
    assert s.stack[j] in s.inStack && s.stack[j] in Segment(s, k);
    assert s.stack[j] == index;
  }

  /** Everything in the segment from `k` up is open and mutually reachable with `index`. */
  ghost predicate SegmentIsClass(r: Relation, s: State, k: nat, index: nat) {
    && index < |s.dfn|
    && forall x :: x in Segment(s, k) ==>
         (index, x) in r && (x, index) in r && Seen(s, x) && s.dfn[index] <= s.dfn[x] && x in s.inStack
  }

  lemma CollapseSets(g: Graph, r: Relation, s: State, k: nat, index: nat, t: State)
    requires Shape(g, r, s) && CollapsedTo(g, s, k, index, t) && s.stack[k] == index
    requires forall v: nat :: Done(s, v) ==> Done(s, s.rep[v])
    requires forall v :: 0 <= v < |g| && !Done(s, v) ==> s.rep[v] == v
    ensures forall v: nat :: Done(t, v) <==> Done(s, v) || v in Segment(s, k)
    ensures forall v :: 0 <= v < |g| ==> (t.rep[v] == index <==> v in Segment(s, k))
    ensures index in Segment(s, k) && !Done(s, index)
  {
    assert forall v: nat :: Seen(t, v) <==> Seen(s, v);
    assert s.stack[k] in Segment(s, k);
    forall v | v in Segment(s, k) ensures v in s.inStack && Seen(s, v) {
    }
  }

  lemma CollapseDone(g: Graph, r: Relation, s: State, k: nat, index: nat, t: State)
    requires |s.rep| == |s.dfn| == |g| && DoneInv(g, r, s) && CollapsedTo(g, s, k, index, t)
    requires Closed(g, Segment(s, k) + DoneSet(s)) && index in Segment(s, k)
    requires Transitive(r) && Keeps(r, DoneSet(s)) && SegmentIsClass(r, s, k, index)
    requires forall v: nat :: Done(t, v) <==> Done(s, v) || v in Segment(s, k)
    ensures DoneInv(g, r, t)
  {
    var seg := Segment(s, k);
    forall u: nat, v: nat | Done(t, u) && Done(t, v) && (u, v) in r && (v, u) in r ensures t.rep[u] == t.rep[v] {
      assert Done(s, u) ==> u in DoneSet(s);
      assert Done(s, v) ==> v in DoneSet(s);
    }
    forall v: nat, w: nat | Done(t, v) && Edge(g, v, w) ensures Done(t, w) {
      assert v in seg + DoneSet(s);
    }
  }

  lemma CollapseTable(g: Graph, r: Relation, s: State, k: nat, index: nat, t: State)
    requires Shape(g, r, s) && TableInv(g, s) && CollapsedTo(g, s, k, index, t) && s.stack[k] == index
    requires forall v: nat :: Done(t, v) <==> Done(s, v) || v in Segment(s, k)
    requires forall v :: 0 <= v < |g| ==> (t.rep[v] == index <==> v in Segment(s, k))
    requires forall v :: v in Segment(s, k) ==> v < |g| && s.rep[v] == v && !Done(s, v)
    ensures TableInv(g, t)
  {
    var seg := Segment(s, k);
    assert index in seg;
    forall v: nat | Done(t, v) && t.rep[v] == v ensures DescribesComponent(g, t, v) {
      if v == index {
        CollapsedMembers(g, r, s, k, index, t);
        forall w ensures w in t.next[index] <==> LeavesComponent(g, t.rep, index, w) {
          if w in t.next[index] {
            var x :| x in seg && Edge(g, x, w);
            assert t.rep[x] == index;
          }
        }
      } else {
        assert Done(s, v) && s.rep[v] == v && v !in seg;
        OtherComponentSame(g, s, k, index, t, v);
      }
    }
  }

  lemma CollapsedMembers(g: Graph, r: Relation, s: State, k: nat, index: nat, t: State)
    requires Shape(g, r, s) && CollapsedTo(g, s, k, index, t) && s.stack[k] == index
    requires forall v :: 0 <= v < |g| ==> (t.rep[v] == index <==> v in Segment(s, k))
    requires forall v :: v in Segment(s, k) ==> v < |g|
    ensures ListsMembers(t.rep, t.dfn, index, t.sub[index])
  {
    var sub := s.stack[k + 1..];
    forall i | 0 <= i < |sub| ensures sub[i] < |g| && sub[i] != index && t.rep[sub[i]] == index {
      assert sub[i] == s.stack[k + 1 + i] && sub[i] in Segment(s, k);
      assert s.dfn[s.stack[k]] < s.dfn[sub[i]];
    }
    forall v | 0 <= v < |g| && v != index && t.rep[v] == index ensures v in sub {
      var i :| k <= i < |s.stack| && s.stack[i] == v;
      assert sub[i - k - 1] == v;
    }
  }

  lemma OtherComponentSame(g: Graph, s: State, k: nat, index: nat, t: State, v: nat)
    requires CollapsedTo(g, s, k, index, t) && v < |g| && v != index
    requires DescribesComponent(g, s, v)
    requires forall w :: 0 <= w < |g| ==> (t.rep[w] == v <==> s.rep[w] == v)
    ensures |t.rep| == |g| && DescribesComponent(g, t, v)
  {
  }

  lemma CollapseShape(g: Graph, r: Relation, s: State, k: nat, index: nat, t: State)
    requires Shape(g, r, s) && CollapsedTo(g, s, k, index, t)
    ensures Shape(g, r, t)
  {
    assert forall v: nat :: Seen(t, v) <==> Seen(s, v);
    forall v ensures v in t.inStack <==> v in t.stack {
      if v in s.inStack && v !in Segment(s, k) {
        var p :| 0 <= p < |s.stack| && s.stack[p] == v;
        assert t.stack[p] == v;
      }
    }
  }

  lemma CollapseGrey(g: Graph, r: Relation, s: State, grey: set<nat>, k: nat, index: nat, t: State)
    requires |s.dfn| == |g| && TopGrey(s, grey, k, index) && GreyInv(g, r, s, grey + {index})
    requires forall w :: Edge(g, index, w) ==> Seen(s, w)
    requires CollapsedTo(g, s, k, index, t)
    ensures GreyInv(g, r, t, grey)
  {
    assert forall v: nat :: Seen(t, v) <==> Seen(s, v);
    assert forall x :: x in grey ==> x !in Segment(s, k);
    forall i | 0 <= i < |t.stack| ensures FallsToGrey(r, t, grey, i) {
      assert FallsToGrey(r, s, grey + {index}, i);
      var j :| 0 <= j <= i && s.stack[j] in grey + {index} && (s.stack[i], s.stack[j]) in r;
      assert t.stack[j] == s.stack[j] && t.stack[j] in grey;
    }
  }

  lemma CollapseExtends(g: Graph, r: Relation, a: State, s: State, index: nat, t: State)
    requires index < |g| && Visiting(g, r, a, s, index, g[index]) && CollapsedTo(g, s, |a.stack|, index, t)
    requires Shape(g, r, t) && s.low[index] == s.dfn[index]
    ensures Visited(g, r, a, t, index)
  {
    assert forall v: nat :: Seen(t, v) <==> Seen(s, v);
    assert t.stack == a.stack;
    assert forall v :: v in a.inStack <==> v in t.inStack;
  }

  /** Popping a root's segment finishes a component and restores the stack of its caller. */
  lemma Collapses(g: Graph, r: Relation, a: State, s: State, grey: set<nat>, index: nat, t: State)
    requires WellFormed(g) && index < |g| && grey <= a.inStack
    requires Visiting(g, r, a, s, index, g[index]) && Inv(g, r, s, grey + {index})
    requires s.low[index] == s.dfn[index] && CollapsedTo(g, s, |a.stack|, index, t)
    requires Transitive(r) && Keeps(r, DoneSet(s))
    requires Closed(g, Segment(s, |a.stack|) + DoneSet(s)) && Keeps(r, Segment(s, |a.stack|) + DoneSet(s))
    ensures Inv(g, r, t, grey) && Visited(g, r, a, t, index)
  {
    var k := |a.stack|;
    FindTopGrey(g, r, a, s, grey, index);
    CollapseShape(g, r, s, k, index, t);
    CollapseGrey(g, r, s, grey, k, index, t);
    assert SegmentIsClass(r, s, k, index) by {
      forall x | x in Segment(s, k)
        ensures (index, x) in r && (x, index) in r && Seen(s, x) && s.dfn[index] <= s.dfn[x] && x in s.inStack
      {
        var i :| k <= i < |s.stack| && s.stack[i] == x;
        assert s.stack[k] in grey + {index};
        SegmentMutual(g, r, s, grey, k, index, i);
      }
    }
    CollapseSets(g, r, s, k, index, t);
    CollapseDone(g, r, s, k, index, t);
    CollapseTable(g, r, s, k, index, t);
    CollapseExtends(g, r, a, s, index, t);
  }

  lemma RootSegmentClosed(g: Graph, r: Relation, a: State, s: State, grey: set<nat>, index: nat)
    requires index < |g| && grey <= a.inStack
    requires Visiting(g, r, a, s, index, g[index]) && Inv(g, r, s, grey + {index})
    requires s.low[index] == s.dfn[index]
    ensures Closed(g, Segment(s, |a.stack|) + DoneSet(s)) && Closed(g, DoneSet(s))
  {
    FindTopGrey(g, r, a, s, grey, index);
    OpenLowBounds(g, r, a, s, index);
    SegmentClosed(g, r, s, grey, |a.stack|, index, a.inStack);
  }

  // ---------------------------------------------------------------- the traversal

  function Reversed(s: seq<nat>): (r: seq<nat>)
    ensures |r| == |s| && forall i :: 0 <= i < |s| ==> r[i] == s[|s| - 1 - i]
  {
    if s == [] then [] else Reversed(s[1..]) + [s[0]]
  }

  /** `t` is `s` with the stack popped down to height `n` into the component of `index`. */
  ghost predicate PoppedTo(g: Graph, s: State, index: nat, n: nat, t: State) {
    && n < |s.stack| && index < |g| && |s.next| == |s.sub| == |s.rep| == |g|
    && |t.rep| == |g| && |t.next| == |g| && |t.sub| == |g|
    && t == s.(stack := s.stack[..n], inStack := s.inStack - Segment(s, n),
               rep := t.rep, next := s.next[index := t.next[index]], sub := s.sub[index := t.sub[index]])
    && (forall v :: 0 <= v < |g| ==> t.rep[v] == if v in Segment(s, n) then index else s.rep[v])
    && (forall w :: w in t.next[index] <==>
          Edge(g, index, w) || exists i :: n < i < |s.stack| && Edge(g, s.stack[i], w))
    && t.sub[index] == Reversed(s.stack[n + 1..])
  }

  ghost predicate Poppable(g: Graph, s: State, k: nat, index: nat) {
    && |s.next| == |s.sub| == |s.rep| == |s.dfn| == |g| && index < |g| && WellFormed(g)
    && k < |s.stack| && s.stack[k] == index && s.sub[index] == []
    && (forall i :: k <= i < |s.stack| ==> s.stack[i] < |g| && s.next[s.stack[i]] == g[s.stack[i]])
    && (forall i :: k < i < |s.stack| ==> s.stack[i] != index)
  }

  lemma SegmentStep(s: State, n: nat)
    requires n < |s.stack|
    ensures Segment(s, n) == Segment(s, n + 1) + {s.stack[n]}
  {
  }

  lemma PopStart(g: Graph, s: State, k: nat, index: nat, u: State)
    requires Poppable(g, s, k, index)
    requires u == s.(stack := s.stack[..|s.stack| - 1], rep := s.rep[s.stack[|s.stack| - 1] := index],
                     inStack := s.inStack - {s.stack[|s.stack| - 1]})
    ensures PoppedTo(g, s, index, |s.stack| - 1, u)
  {
    SegmentStep(s, |s.stack| - 1);
    assert s.next[s.stack[k]] == g[index];
  }

  /** While the last popped block is not the root, there is another to pop. */
  lemma PopRoom(g: Graph, s: State, k: nat, index: nat, n: nat, t: State)
    requires Poppable(g, s, k, index) && k <= n && PoppedTo(g, s, index, n, t) && s.stack[n] != index
    ensures k < n == |t.stack| && t.stack[n - 1] == s.stack[n - 1] < |t.rep| && s.stack[n] < |t.next|
  {
  }

  /** One round of the popping loop: record `s.stack[n]` as a member, then pop the block below. */
  lemma PopStep(g: Graph, s: State, k: nat, index: nat, n: nat, t: State, u: State)
    requires Poppable(g, s, k, index) && PoppedTo(g, s, index, n, t) && k < n
    requires u == t.(sub := t.sub[index := t.sub[index] + [s.stack[n]]],
                     next := t.next[index := t.next[index] + t.next[s.stack[n]]],
                     stack := t.stack[..n - 1], rep := t.rep[s.stack[n - 1] := index],
                     inStack := t.inStack - {s.stack[n - 1]})
    ensures PoppedTo(g, s, index, n - 1, u)
  {
    var node := s.stack[n];
    SegmentStep(s, n - 1);
    assert s.stack[n..] == [node] + s.stack[n + 1..];
    assert u.stack == s.stack[..n - 1];
    assert u.inStack == s.inStack - Segment(s, n - 1);
    assert t.next[node] == g[node];
    forall w ensures w in u.next[index] <==>
                     Edge(g, index, w) || exists i :: n - 1 < i < |s.stack| && Edge(g, s.stack[i], w)
    {
      assert w in g[node] <==> Edge(g, s.stack[n], w);
    }
    assert u.next == s.next[index := u.next[index]];
    assert u.sub == s.sub[index := u.sub[index]];
  }

  lemma PopEnd(g: Graph, s: State, k: nat, index: nat, t: State, u: State)
    requires Poppable(g, s, k, index) && PoppedTo(g, s, index, k, t)
    requires |u.next| == |g|
    requires forall w: nat :: w in u.next[index] <==> w in t.next[index] && w < |g| && t.rep[w] != index
    requires u == t.(next := t.next[index := u.next[index]], sub := t.sub[index := Reversed(t.sub[index])])
    ensures CollapsedTo(g, s, k, index, u)
  {
    assert Reversed(t.sub[index]) == s.stack[k + 1..];
    forall w: nat | Edge(g, index, w) || exists i :: k < i < |s.stack| && Edge(g, s.stack[i], w)
      ensures exists x :: x in Segment(s, k) && Edge(g, x, w)
    {
      if Edge(g, index, w) {
        assert s.stack[k] in Segment(s, k);
      } else {
        var i :| k < i < |s.stack| && Edge(g, s.stack[i], w);
        assert s.stack[i] in Segment(s, k);
      }
    }
  }

  lemma RootPoppable(g: Graph, r: Relation, a: State, s: State, index: nat)
    requires WellFormed(g) && index < |g| && Visiting(g, r, a, s, index, g[index])
    requires DoneInv(g, r, s) && TableInv(g, s)
    ensures Poppable(g, s, |a.stack|, index)
  {
    forall i | |a.stack| <= i < |s.stack| ensures s.stack[i] < |g| && s.next[s.stack[i]] == g[s.stack[i]] {
      assert Seen(s, s.stack[i]) && s.stack[i] in s.inStack;
    }
  }

  lemma GreyReachTarget(g: Graph, r: Relation, grey: set<nat>, index: nat, target: nat)
    requires ReachLaws(g, r) && Edge(g, index, target)
    requires (0, index) in r && forall x :: x in grey ==> (x, index) in r
    ensures (0, target) in r && (index, target) in r
    ensures forall x :: x in grey + {index} ==> (x, target) in r
    ensures forall w :: (target, w) in r ==> (index, w) in r
  {
    assert Composes(r, index, target);
  }

  class Condenser {
    var next: seq<set<nat>>
    var sub: seq<seq<nat>>
    var rep: seq<nat>
    // the vectors that `solve_scc` lends to the recursion
    var stack: seq<nat>
    var inStack: set<nat>
    var dfn: seq<nat>
    var low: seq<nat>
    var time: nat

    ghost function Snap(): State
      reads this
    {
      State(next, sub, rep, stack, inStack, dfn, low, time)
    }

    constructor (g: seq<set<nat>>)
      ensures next == g && |sub| == |rep| == |g|
      ensures forall i :: 0 <= i < |g| ==> rep[i] == i && sub[i] == []
    {
      next, sub, rep := g, seq(|g|, i => []), seq(|g|, i => i);
      stack, inStack, dfn, low, time := [], {}, [], [], 0;
    }

    /** Pops the component of `index` off the stack and rewrites the block table. */
    method PopComponent(index: nat, ghost g: Graph, ghost k: nat)
      requires Poppable(g, Snap(), k, index)
      modifies this
      ensures CollapsedTo(g, old(Snap()), k, index, Snap())
    {
      ghost var s := Snap();
      var node := stack[|stack| - 1];
      stack := stack[..|stack| - 1];
      rep := rep[node := index];
      inStack := inStack - {node};
      PopStart(g, s, k, index, Snap());
      while node != index
        invariant k <= |stack| && PoppedTo(g, s, index, |stack|, Snap()) && node == s.stack[|stack|]
        decreases |stack|
      {
        PopRoom(g, s, k, index, |stack|, Snap());
        node := PopOne(index, node, g, s, k);
      }
      ghost var t := Snap();
      assert |stack| == k;
      assert forall w :: w in next[index] ==> w < |rep|;
      next := next[index := set w | w in next[index] && rep[w] != index];
      sub := sub[index := Reversed(sub[index])];
      PopEnd(g, s, k, index, t, Snap());
    }

    /** One round of the popping loop. */
    method PopOne(index: nat, node: nat, ghost g: Graph, ghost s: State, ghost k: nat) returns (below: nat)
      requires Poppable(g, s, k, index) && k < |stack| && PoppedTo(g, s, index, |stack|, Snap())
      requires node == s.stack[|stack|] < |next| && stack[|stack| - 1] == s.stack[|stack| - 1] < |rep|
      modifies this
      ensures |stack| == old(|stack|) - 1 && PoppedTo(g, s, index, |stack|, Snap()) && below == s.stack[|stack|]
    {
      ghost var t := Snap();
      sub := sub[index := sub[index] + [node]];
      next := next[index := next[index] + next[node]];
      below := stack[|stack| - 1];
      stack := stack[..|stack| - 1];
      rep := rep[below := index];
      inStack := inStack - {below};
      PopStep(g, s, k, index, |t.stack|, t, Snap());
    }

    /** The first steps of a visit: number the block and push it. */
    method Open(index: nat, ghost g: Graph, ghost r: Relation, ghost grey: set<nat>)
      requires index < |g| && Inv(g, r, Snap(), grey) && !Seen(Snap(), index)
      requires index == 0 <==> time == 0
      requires (0, index) in r && forall x :: x in grey + {index} ==> (x, index) in r
      modifies this
      ensures Visiting(g, r, old(Snap()), Snap(), index, {}) && Inv(g, r, Snap(), grey + {index})
    {
      ghost var a := Snap();
      dfn := dfn[index := time];
      low := low[index := time];
      time := time + 1;
      inStack := inStack + {index};
      stack := stack + [index];
      assert Snap() == Opened(a, index);
      OpenVisits(g, r, a, index);
      OpenKeepsGrey(g, r, a, grey, index);
      DoneStable(g, r, a, Snap());
    }

    /** `tarjan`: visits `index`; the grey blocks are those of the open calls. */
    method Tarjan(index: nat, ghost g: Graph, ghost r: Relation, ghost grey: set<nat>)
      requires WellFormed(g) && ReachLaws(g, r) && (forall u :: !Edge(g, u, 0)) && index < |g|
      requires Inv(g, r, Snap(), grey) && !Seen(Snap(), index)
      requires index == 0 <==> time == 0
      requires (0, index) in r && forall x :: x in grey ==> (x, index) in r
      modifies this
      ensures Inv(g, r, Snap(), grey)
      ensures Visited(g, r, old(Snap()), Snap(), index)
      decreases Unseen(dfn, time), 0
    {
      ghost var a := Snap();
      Open(index, g, r, grey);
      VisitShrinksUnseen(g, r, a, Snap(), index, {});
      FollowEdges(index, g, r, grey, a);
      Close(index, g, r, grey, a);
    }

    /** The edge loop, in any order of the successor set. */
    method FollowEdges(index: nat, ghost g: Graph, ghost r: Relation, ghost grey: set<nat>, ghost a: State)
      requires WellFormed(g) && ReachLaws(g, r) && index < |g| && forall u :: !Edge(g, u, 0)
      requires Following(g, r, a, Snap(), grey, index, {}) && next[index] == g[index]
      requires (0, index) in r && forall x :: x in grey ==> (x, index) in r
      modifies this
      ensures Following(g, r, a, Snap(), grey, index, g[index])
      decreases Unseen(dfn, time), 3
    {
      var todo := next[index];
      ghost var seen := {};
      ghost var unseen := Unseen(dfn, time);
      while todo != {}
        invariant todo <= g[index] && forall w :: w in g[index] ==> w in seen || w in todo
        invariant Following(g, r, a, Snap(), grey, index, seen)
        invariant Unseen(dfn, time) <= unseen
        decreases todo
      {
        var target :| target in todo;
        FollowEdge(index, target, g, r, grey, a, seen);
        todo, seen := todo - {target}, seen + {target};
      }
      assert seen == g[index];
    }

    /** One round of the edge loop. */
    method FollowEdge(index: nat, target: nat, ghost g: Graph, ghost r: Relation, ghost grey: set<nat>,
                      ghost a: State, ghost seen: set<nat>)
      requires WellFormed(g) && ReachLaws(g, r) && Edge(g, index, target) && forall u :: !Edge(g, u, 0)
      requires Following(g, r, a, Snap(), grey, index, seen)
      requires (0, index) in r && forall x :: x in grey ==> (x, index) in r
      modifies this
      ensures Following(g, r, a, Snap(), grey, index, seen + {target})
      ensures Unseen(dfn, time) <= old(Unseen(dfn, time))
      decreases Unseen(dfn, time), 2
    {
      VisitShrinksUnseen(g, r, a, Snap(), index, seen);
      GreyReachTarget(g, r, grey, index, target);
      if dfn[target] == 0 {
        FollowNew(index, target, g, r, grey, a, seen);
      } else {
        FollowSeen(index, target, g, r, grey, a, seen);
      }
    }

    /** An edge to a block that has no number yet. */
    method FollowNew(index: nat, target: nat, ghost g: Graph, ghost r: Relation, ghost grey: set<nat>,
                     ghost a: State, ghost seen: set<nat>)
      requires WellFormed(g) && ReachLaws(g, r) && Edge(g, index, target) && forall u :: !Edge(g, u, 0)
      requires Visiting(g, r, a, Snap(), index, seen) && !Seen(Snap(), target)
      requires Inv(g, r, Snap(), grey + {index}) && (0, target) in r && target != 0 && time > 0
      requires (forall x :: x in grey + {index} ==> (x, target) in r) && forall w :: (target, w) in r ==>
                 (index, w) in r
      modifies this
      ensures Visiting(g, r, a, Snap(), index, seen + {target})
      ensures Inv(g, r, Snap(), grey + {index})
      ensures Unseen(dfn, time) <= old(Unseen(dfn, time))
      decreases Unseen(dfn, time), 1
    {
      ghost var s := Snap();
      Tarjan(target, g, r, grey + {index});
      ghost var m := Snap();
      low := low[index := if low[target] < low[index] then low[target] else low[index]];
      AfterNew(g, r, a, s, m, Snap(), grey, index, seen, target);
    }

    /** An edge to a numbered block, on the stack or finished. */
    method FollowSeen(index: nat, target: nat, ghost g: Graph, ghost r: Relation, ghost grey: set<nat>,
                      ghost a: State, ghost seen: set<nat>)
      requires Edge(g, index, target) && Seen(Snap(), target) && (index, target) in r
      requires Visiting(g, r, a, Snap(), index, seen) && Inv(g, r, Snap(), grey + {index})
      modifies this`low
      ensures Visiting(g, r, a, Snap(), index, seen + {target})
      ensures Inv(g, r, Snap(), grey + {index})
    {
      ghost var s := Snap();
      if target in inStack {
        low := low[index := if dfn[target] < low[index] then dfn[target] else low[index]];
      }
      AfterSeen(g, r, a, s, Snap(), grey, index, seen, target);
    }

    /** The end of a visit: a block whose low-link is its own number pops its component. */
    method Close(index: nat, ghost g: Graph, ghost r: Relation, ghost grey: set<nat>, ghost a: State)
      requires WellFormed(g) && ReachLaws(g, r) && index < |g| && grey <= a.inStack
      requires Visiting(g, r, a, Snap(), index, g[index])
      requires Inv(g, r, Snap(), grey + {index})
      modifies this
      ensures Inv(g, r, Snap(), grey)
      ensures Visited(g, r, a, Snap(), index)
    {
      ghost var s := Snap();
      LawsCompose(g, r);
      if dfn[index] == low[index] {
        RootSegmentClosed(g, r, a, s, grey, index);
        RootPoppable(g, r, a, s, index);
        PopComponent(index, g, |a.stack|);
        Collapses(g, r, a, s, grey, index, Snap());
      } else {
        StaysOpen(g, r, a, s, grey, index);
      }
    }

    /** `solve_scc`: condenses the part of the graph that block 0 reaches. */
    method SolveScc(ghost g: Graph)
      requires WellFormed(g) && |g| > 0 && forall u :: !Edge(g, u, 0)
      requires next == g && |sub| == |rep| == |g|
      requires forall i :: 0 <= i < |g| ==> rep[i] == i && sub[i] == []
      modifies this
      ensures Condensed(g, next, sub, rep, dfn)
    {
      stack, inStack, time := [], {}, 0;
      dfn, low := seq(|next|, i => 0), seq(|next|, i => 0);
      RelationLaws(g);
      assert forall v: nat :: !Seen(Snap(), v);
      Tarjan(0, g, ReachRelation(g), {});
      FinishedIsCondensed(g, Snap());
    }
  }

  /** With no open call left, the traversal has finished exactly what block 0 reaches. */
  lemma FinishedIsReached(g: Graph, s: State)
    requires WellFormed(g) && |g| > 0 && Inv(g, ReachRelation(g), s, {}) && Seen(s, 0)
    ensures forall v: nat :: Done(s, v) <==> v < |g| && Reaches(g, 0, v)
  {
    assert |s.stack| > 0 ==> FallsToGrey(ReachRelation(g), s, {}, 0);
    assert 0 in DoneSet(s) && Closed(g, DoneSet(s));
    forall v: nat ensures Done(s, v) <==> v < |g| && Reaches(g, 0, v) {
      if v < |g| && Reaches(g, 0, v) {
        ClosedKeepsReach(g, DoneSet(s), 0, v);
      }
    }
  }

  lemma SameRepIsMutual(g: Graph, s: State, u: nat, v: nat)
    requires |s.rep| == |s.dfn| == |g| && DoneInv(g, ReachRelation(g), s) && Done(s, u) && Done(s, v)
    ensures s.rep[u] == s.rep[v] <==> Mutual(g, u, v)
  {
    if s.rep[u] == s.rep[v] {
      ReachesTrans(g, u, s.rep[u], v);
      ReachesTrans(g, v, s.rep[u], u);
    }
  }

  lemma FinishedIsCondensed(g: Graph, s: State)
    requires WellFormed(g) && |g| > 0 && Inv(g, ReachRelation(g), s, {}) && Seen(s, 0)
    ensures Condensed(g, s.next, s.sub, s.rep, s.dfn)
  {
    FinishedIsReached(g, s);
    forall u, v | 0 <= u < |g| && 0 <= v < |g| && Done(s, u) && Done(s, v)
      ensures s.rep[u] == s.rep[v] <==> Mutual(g, u, v)
    {
      SameRepIsMutual(g, s, u, v);
    }
    assert forall u: nat :: Done(s, u) && s.rep[u] == u ==> DescribesComponent(g, s, u);
  }
}
