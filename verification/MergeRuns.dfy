/** Runs of `merge_alias` on any two nodes: what a finished run is, what it means when the two trees
    are disjoint, and exactly when the recursion ends. */
module MergeRuns {
  import opened Wrappers
  import opened UnionFind
  import opened Arena
  import opened MergeTrees

  /** A finished call: the two nodes and, in the order of the field loop, the nested calls. */
  datatype Merging = Merging(l: nat, r: nat, fields: seq<(nat, Merging)>)

  ghost predicate Sound(s: Snapshot) {
    Ordered(s.values) && UniqueParent(s.values) && |s.aliasSet| == |s.values| && Acyclic(s.aliasSet)
  }

  /** The parent array after `union_merge`. */
  ghost function United(p: seq<nat>, l: nat, r: nat): (q: seq<nat>)
    requires Acyclic(p) && l < |p| && r < |p|
    ensures |q| == |p|
  {
    seq(|p|, x requires 0 <= x < |p| => JoinedRoot(p, l, r, x))
  }

  lemma UnitedFlat(p: seq<nat>, l: nat, r: nat)
    requires Acyclic(p) && l < |p| && r < |p|
    ensures Flat(United(p, l, r)) && Acyclic(United(p, l, r))
  {
    FlatIsAcyclic(United(p, l, r));
  }

  /** The node that `l` gets for a field it lacks. */
  function Copied(v: Values, l: nat, child: nat, f: nat): (node: ValueNode)
    requires l < |v| && child < |v|
  {
    NewNode(|v|, v[l].local, v[child].needDrop, v[child].mayDrop, v[child].kind, f)
  }

  /** The state in which the nested call for field `f` starts. */
  ghost function WithField(s: Snapshot, l: nat, r: nat, f: nat): (t: Snapshot)
    requires Sound(s) && l < |s.values| && r < |s.values| && f in s.values[r].fields
  {
    if f in s.values[l].fields then s
    else Snapshot(AddField(s.values, l, f, Copied(s.values, l, s.values[r].fields[f], f)), s.aliasSet + [|s.aliasSet|])
  }

  /** The listed fields are those of the set, each once. */
  ghost predicate Lists(fields: seq<(nat, Merging)>, keys: set<nat>) {
    && (forall i :: 0 <= i < |fields| ==> fields[i].0 in keys)
    && (forall f :: f in keys ==> exists i :: 0 <= i < |fields| && fields[i].0 == f)
    && (forall i, j :: 0 <= i < j < |fields| ==> fields[i].0 != fields[j].0)
  }

  /** `m` is a run of `merge_alias` from `s` that ends in `t`. */
  ghost predicate Runs(m: Merging, s: Snapshot, t: Snapshot)
    decreases m, |m.fields| + 1
  {
    && Sound(s) && m.l < |s.values| && m.r < |s.values| && Lists(m.fields, s.values[m.r].fields.Keys)
    && RunsFields(m, |m.fields|, Snapshot(s.values, United(s.aliasSet, m.l, m.r)), t)
  }

  /** The first `k` rounds of its field loop. */
  ghost predicate RunsFields(m: Merging, k: nat, s: Snapshot, t: Snapshot)
    requires k <= |m.fields|
    decreases m, k
  {
    if k == 0 then t == s
    else
      var i := k - 1;
      exists u :: RunsFields(m, i, s, u) && RunsField(m, i, u, t)
  }

  /** Round `i`: a missing field is created, then the two fields are merged. */
  ghost predicate RunsField(m: Merging, i: nat, s: Snapshot, t: Snapshot)
    requires i < |m.fields|
    decreases m, i
  {
    && Calls(m.l, m.r, m.fields[i].0, m.fields[i].1, s)
    && Runs(m.fields[i].1, WithField(s, m.l, m.r, m.fields[i].0), t)
  }

  /** `nested` is a call that the loop of `l` and `r` makes for field `f` in state `s`. */
  ghost predicate Calls(l: nat, r: nat, f: nat, nested: Merging, s: Snapshot) {
    && Sound(s) && l < |s.values| && r < |s.values| && f in s.values[r].fields
    && var x := WithField(s, l, r, f);
    && l < |x.values| && f in x.values[l].fields
    && nested.l == x.values[l].fields[f] && nested.r == s.values[r].fields[f]
  }

  lemma LastRound(m: Merging, i: nat, s: Snapshot, t: Snapshot) returns (u: Snapshot)
    requires i < |m.fields| && RunsFields(m, i + 1, s, t)
    ensures RunsFields(m, i, s, u) && RunsField(m, i, u, t)
  {
    u :| RunsFields(m, i, s, u) && RunsField(m, i, u, t);
  }

  // ---------------------------------------------------------------- what every run keeps

  /** The arena stays sound and only grows. */
  ghost predicate Grew(s: Snapshot, t: Snapshot) {
    && Sound(t) && Extends(s.values, t.values)
    && forall n :: ArenaInv(s.values, s.aliasSet, n) ==> ArenaInv(t.values, t.aliasSet, n)
  }

  lemma GrewTrans(s: Snapshot, t: Snapshot, u: Snapshot)
    requires Grew(s, t) && Grew(t, u)
    ensures Grew(s, u)
  {
    ExtendsTrans(s.values, t.values, u.values);
  }

  lemma WithFieldGrew(s: Snapshot, l: nat, r: nat, f: nat)
    requires Sound(s) && l < |s.values| && r < |s.values| && f in s.values[r].fields
    ensures Grew(s, WithField(s, l, r, f)) && f in WithField(s, l, r, f).values[l].fields
    ensures f !in s.values[l].fields ==> WithField(s, l, r, f).values[l].fields[f] == |s.values|
  {
    if f !in s.values[l].fields {
      AddedGrew(s, l, f, Copied(s.values, l, s.values[r].fields[f], f));
    }
  }

  lemma AddedGrew(s: Snapshot, l: nat, f: nat, node: ValueNode)
    requires Sound(s) && l < |s.values| && f !in s.values[l].fields
    requires node.index == |s.values| && node.fields == map[] && node.father == node.local == s.values[l].local
    requires node.fieldId == Some(f)
    ensures Grew(s, Snapshot(AddField(s.values, l, f, node), s.aliasSet + [|s.aliasSet|]))
  {
    AddFieldOrdered(s.values, l, f, node);
    AddFieldUnique(s.values, l, f, node);
    assert s.aliasSet + [|s.aliasSet|] == Grown(s.aliasSet, |s.values| + 1);
    GrownAcyclic(s.aliasSet, |s.values| + 1);
    forall n | ArenaInv(s.values, s.aliasSet, n)
      ensures ArenaInv(AddField(s.values, l, f, node), s.aliasSet + [|s.aliasSet|], n)
    {
      AddFieldTrees(s.values, l, f, node, n);
    }
  }

  lemma {:induction false} RunGrew(m: Merging, s: Snapshot, t: Snapshot)
    requires Runs(m, s, t)
    ensures Grew(s, t)
    decreases m, |m.fields| + 1
  {
    var u := Snapshot(s.values, United(s.aliasSet, m.l, m.r));
    UnitedFlat(s.aliasSet, m.l, m.r);
    RunFieldsGrew(m, |m.fields|, u, t);
    GrewTrans(s, u, t);
  }

  lemma {:induction false} RunFieldsGrew(m: Merging, k: nat, s: Snapshot, t: Snapshot)
    requires k <= |m.fields| && Sound(s) && RunsFields(m, k, s, t)
    ensures Grew(s, t)
    decreases m, k
  {
    if k > 0 {
      var i := k - 1;
      var u := LastRound(m, i, s, t);
      RunFieldsGrew(m, i, s, u);
      RunFieldGrew(m, i, u, t);
      GrewTrans(s, u, t);
    }
  }

  lemma {:induction false} RunFieldGrew(m: Merging, i: nat, s: Snapshot, t: Snapshot)
    requires i < |m.fields| && RunsField(m, i, s, t)
    ensures Grew(s, t)
    decreases m, i
  {
    var f, nested := m.fields[i].0, m.fields[i].1;
    var x := WithField(s, m.l, m.r, f);
    WithFieldGrew(s, m.l, m.r, f);
    RunGrew(nested, x, t);
    GrewTrans(s, x, t);
  }

  // ---------------------------------------------------------------- no run from below

  ghost predicate StrictlyBelow(v: Values, r: nat, l: nat)
    requires Ordered(v) && r < |v|
  {
    exists path :: path != [] && At(v, r, path) == Some(l)
  }

  /** The states around one round of the loop. */
  lemma {:induction false} RoundOf(m: Merging, k: nat, s: Snapshot, t: Snapshot, i: nat)
    returns (u: Snapshot, u': Snapshot)
    requires i < k <= |m.fields| && Sound(s) && RunsFields(m, k, s, t)
    ensures RunsField(m, i, u, u') && Extends(s.values, u.values)
    decreases k
  {
    var j := k - 1;
    var x := LastRound(m, j, s, t);
    if i == j {
      RunFieldsGrew(m, j, s, x);
      u, u' := x, t;
    } else {
      u, u' := RoundOf(m, j, s, x, i);
    }
  }

  /** A left node strictly below the right one has its field strictly below the right one's. */
  lemma {:induction false} NoRunFromBelow(m: Merging, s: Snapshot, t: Snapshot, path: seq<nat>)
    requires Runs(m, s, t) && path != [] && At(s.values, m.r, path) == Some(m.l)
    ensures false
    decreases m
  {
    var f := path[0];
    var i :| 0 <= i < |m.fields| && m.fields[i].0 == f;
    var start := Snapshot(s.values, United(s.aliasSet, m.l, m.r));
    UnitedFlat(s.aliasSet, m.l, m.r);
    var u, u' := RoundOf(m, |m.fields|, start, t, i);
    var x := WithField(u, m.l, m.r, f);
    WithFieldGrew(u, m.l, m.r, f);
    ExtendsTrans(s.values, u.values, x.values);
    AtExtends(s.values, x.values, m.r, path);
    var nested := m.fields[i].1;
    FieldStaysBelow(x.values, m.l, m.r, path);
    NoRunFromBelow(nested, x, u', path[1..] + [f]);
  }

  lemma FieldStaysBelow(v: Values, l: nat, r: nat, path: seq<nat>)
    requires Ordered(v) && l < |v| && r < |v| && path != [] && At(v, r, path) == Some(l) && path[0] in v[l].fields
    ensures path[0] in v[r].fields && At(v, v[r].fields[path[0]], path[1..] + [path[0]]) == Some(v[l].fields[path[0]])
  {
    var f := path[0];
    AtConcat(v, v[r].fields[f], path[1..], [f]);
    assert [f][1..] == [];
  }

  // ---------------------------------------------------------------- disjoint trees

  ghost predicate Disjoint(v: Values, l: nat, r: nat)
    requires Ordered(v) && l < |v| && r < |v|
  {
    Desc(v, l) !! Desc(v, r)
  }

  /** The two closed sets in which a merge of disjoint trees takes place. */
  ghost predicate Apart(v: Values, a: set<nat>, b: set<nat>, l: nat, r: nat) {
    Ordered(v) && ClosedSet(v, a) && ClosedSet(v, b) && a !! b && l in a && r in b
  }

  /** Between two rounds: everything up to here has changed only `a` and is accounted for. */
  ghost predicate Midway(s0: Snapshot, t: Snapshot, a: set<nat>, l: nat, r: nat, done: set<nat>) {
    && l < |s0.values| && r < |s0.values| && Framed(s0.values, t.values, a)
    && Accounted(s0.aliasSet, t.values, t.aliasSet, l, r, done)
    && NewMirrors(|s0.values|, t.values, l, r)
  }

  /** On disjoint trees a finished run leaves the right tree alone, gives the left one its paths
      and yields the least partition that aligns them. */
  lemma {:induction false} RunMerges(m: Merging, s: Snapshot, t: Snapshot)
    requires Runs(m, s, t) && Disjoint(s.values, m.l, m.r)
    ensures Framed(s.values, t.values, Desc(s.values, m.l))
    ensures Merged(s.values, s.aliasSet, t.values, t.aliasSet, m.l, m.r)
    decreases m, |m.fields| + 1
  {
    var a, b := Desc(s.values, m.l), Desc(s.values, m.r);
    var start := Snapshot(s.values, United(s.aliasSet, m.l, m.r));
    DescClosed(s.values, m.l);
    DescClosed(s.values, m.r);
    UnitedFlat(s.aliasSet, m.l, m.r);
    StartMerging(s.values, s.aliasSet, start.aliasSet, m.l, m.r);
    FramedSelf(s.values, a);
    RunMergesFields(m, |m.fields|, s, start, t, a, b);
    ListsAll(m.fields, s.values[m.r].fields.Keys);
    AccountedAll(s.values, s.aliasSet, t.values, t.aliasSet, m.l, m.r);
  }

  /** The first `k` listed fields. */
  ghost function FirstFields(fields: seq<(nat, Merging)>, k: nat): set<nat>
    requires k <= |fields|
  {
    if k == 0 then {} else FirstFields(fields, k - 1) + {fields[k - 1].0}
  }

  lemma {:induction false} FirstFieldsAre(fields: seq<(nat, Merging)>, k: nat)
    requires k <= |fields|
    ensures forall f :: f in FirstFields(fields, k) <==> exists i :: 0 <= i < k && fields[i].0 == f
  {
    if k > 0 {
      FirstFieldsAre(fields, k - 1);
      forall f | f in FirstFields(fields, k) ensures exists i :: 0 <= i < k && fields[i].0 == f {
        assert f == fields[k - 1].0 || f in FirstFields(fields, k - 1);
      }
    }
  }

  lemma ListsAll(fields: seq<(nat, Merging)>, keys: set<nat>)
    requires Lists(fields, keys)
    ensures FirstFields(fields, |fields|) == keys
  {
    FirstFieldsAre(fields, |fields|);
  }

  lemma {:induction false} RunMergesFields(m: Merging, k: nat, s0: Snapshot, s: Snapshot, t: Snapshot, a: set<nat>,
                                           b: set<nat>)
    requires k <= |m.fields| && RunsFields(m, k, s, t)
    requires Apart(s0.values, a, b, m.l, m.r) && Midway(s0, s, a, m.l, m.r, {})
    ensures Midway(s0, t, a, m.l, m.r, FirstFields(m.fields, k))
    decreases m, k, 0
  {
    if k > 0 {
      RunMergesNext(m, k - 1, k, s0, s, t, a, b);
    }
  }

  lemma {:induction false} RunMergesNext(m: Merging, i: nat, k: nat, s0: Snapshot, s: Snapshot, t: Snapshot,
                                         a: set<nat>,
                                         b: set<nat>)
    requires k == i + 1 <= |m.fields| && RunsFields(m, k, s, t)
    requires Apart(s0.values, a, b, m.l, m.r) && Midway(s0, s, a, m.l, m.r, {})
    ensures Midway(s0, t, a, m.l, m.r, FirstFields(m.fields, k))
    decreases m, i, 1
  {
    var u := LastRound(m, i, s, t);
    RunMergesFields(m, i, s0, s, u, a, b);
    RunMergesField(m, i, s0, u, t, a, b, FirstFields(m.fields, i));
  }

  lemma {:induction false} RunMergesField(m: Merging, i: nat, s0: Snapshot, s: Snapshot, t: Snapshot, a: set<nat>,
                                          b: set<nat>, done: set<nat>)
    requires i < |m.fields| && Apart(s0.values, a, b, m.l, m.r)
    ensures RunsField(m, i, s, t) && Midway(s0, s, a, m.l, m.r, done) ==>
              Midway(s0, t, a, m.l, m.r, done + {m.fields[i].0})
    decreases m, i, 0
  {
    if RunsField(m, i, s, t) && Midway(s0, s, a, m.l, m.r, done) {
      var f, nested := m.fields[i].0, m.fields[i].1;
      var x := WithField(s, m.l, m.r, f);
      WithFieldGrew(s, m.l, m.r, f);
      FieldAdded(m.l, m.r, f, s0, s, x, a, b, done);
      NestedApart(m.l, m.r, f, s0, x, a, b, done);
      RunMerges(nested, x, t);
      FieldMerged(m.l, m.r, f, s0, x, t, a, b, done);
    }
  }

  /** A created field keeps the account. */
  lemma FieldAdded(l: nat, r: nat, f: nat, s0: Snapshot, s: Snapshot, x: Snapshot, a: set<nat>, b: set<nat>,
                   done: set<nat>)
    requires Sound(s) && l < |s.values| && r < |s.values| && f in s.values[r].fields && x == WithField(s, l, r, f)
    requires Apart(s0.values, a, b, l, r) && Midway(s0, s, a, l, r, done)
    ensures Midway(s0, x, a, l, r, done) && x.values[r] == s.values[r]
  {
    if f !in s.values[l].fields {
      var v, v0 := s.values, s0.values;
      var node := Copied(v, l, v[r].fields[f], f);
      var a' := a + Added(v, |v0|);
      RightTreeKept(v0, v, a, b);
      FramedAdd(v, a', l, f, node);
      MirrorsAdd(|v0|, v, l, r, f, node, a', b);
      AccountedAdd(s0.aliasSet, v, s.aliasSet, x.values, a', b, l, r, done);
      FramedTrans(v0, v, x.values, a);
    }
  }

  /** The nested call is on disjoint trees again. */
  lemma NestedApart(l: nat, r: nat, f: nat, s0: Snapshot, x: Snapshot, a: set<nat>, b: set<nat>, done: set<nat>)
    requires Apart(s0.values, a, b, l, r) && Midway(s0, x, a, l, r, done)
    requires f in x.values[l].fields && f in x.values[r].fields
    ensures Disjoint(x.values, x.values[l].fields[f], x.values[r].fields[f])
  {
    RightTreeKept(s0.values, x.values, a, b);
    DescInClosed(x.values, a + Added(x.values, |s0.values|), x.values[l].fields[f]);
    DescInClosed(x.values, b, x.values[r].fields[f]);
  }

  /** The nested merge is one more field of the account. */
  lemma FieldMerged(l: nat, r: nat, f: nat, s0: Snapshot, x: Snapshot, t: Snapshot, a: set<nat>, b: set<nat>,
                    done: set<nat>)
    requires Apart(s0.values, a, b, l, r) && Midway(s0, x, a, l, r, done)
    requires f in x.values[l].fields && f in x.values[r].fields
    requires Framed(x.values, t.values, Desc(x.values, x.values[l].fields[f]))
    requires Merged(x.values, x.aliasSet, t.values, t.aliasSet, x.values[l].fields[f], x.values[r].fields[f])
    ensures Midway(s0, t, a, l, r, done + {f}) && t.values[r] == x.values[r]
  {
    var v, w := x.values, t.values;
    var inner, a' := Desc(v, v[l].fields[f]), a + Added(v, |s0.values|);
    RightTreeKept(s0.values, v, a, b);
    DescInClosed(v, a', v[l].fields[f]);
    MirrorsStep(|s0.values|, v, w, inner, b, l, r, f);
    AccountedStep(s0.aliasSet, v, x.aliasSet, w, t.aliasSet, inner, b, l, r, done, f);
    FramedWiden(v, w, inner, a');
    FramedTrans(s0.values, v, w, a);
  }

  // ---------------------------------------------------------------- depths

  /** `dep` numbers every node by its distance from a root. */
  ghost predicate Depths(v: Values, dep: seq<nat>)
    requires Ordered(v)
  {
    |dep| == |v| && forall i, f :: 0 <= i < |v| && f in v[i].fields ==> dep[v[i].fields[f]] == dep[i] + 1
  }

  ghost predicate Capped(dep: seq<nat>, cap: nat) {
    forall i :: 0 <= i < |dep| ==> dep[i] <= cap
  }

  lemma {:induction false} DepthAt(v: Values, dep: seq<nat>, n: nat, path: seq<nat>)
    requires Ordered(v) && Depths(v, dep) && n < |v| && At(v, n, path).Some?
    ensures dep[At(v, n, path).value] == dep[n] + |path|
    decreases |path|
  {
    if path != [] {
      DepthAt(v, dep, v[n].fields[path[0]], path[1..]);
    }
  }

  /** Every forest has depths, at most the node's own number. */
  lemma SomeDepths(v: Values) returns (dep: seq<nat>)
    requires Ordered(v) && UniqueParent(v)
    ensures Depths(v, dep) && Capped(dep, |v|)
  {
    dep := [];
    while |dep| < |v|
      invariant |dep| <= |v| && forall i :: 0 <= i < |dep| ==> dep[i] <= i
      invariant forall i, f :: 0 <= i < |v| && f in v[i].fields && v[i].fields[f] < |dep| ==>
                  dep[v[i].fields[f]] == dep[i] + 1
    {
      var n := |dep|;
      if i, f :| 0 <= i < |v| && f in v[i].fields && v[i].fields[f] == n {
        dep := dep + [dep[i] + 1];
      } else {
        dep := dep + [0];
      }
    }
  }

  lemma {:induction false} RunKeepsDepths(m: Merging, s: Snapshot, t: Snapshot, dep: seq<nat>, cap: nat)
    returns (dep': seq<nat>)
    requires Runs(m, s, t) && Depths(s.values, dep) && Capped(dep, cap) && dep[m.l] <= dep[m.r]
    ensures Ordered(t.values) && Depths(t.values, dep') && Capped(dep', cap) && dep <= dep'
    decreases m, |m.fields| + 1
  {
    UnitedFlat(s.aliasSet, m.l, m.r);
    var start := Snapshot(s.values, United(s.aliasSet, m.l, m.r));
    dep' := RunFieldsKeepDepths(m, |m.fields|, start, t, dep, cap);
  }

  lemma {:induction false} RunFieldsKeepDepths(m: Merging, k: nat, s: Snapshot, t: Snapshot, dep: seq<nat>, cap: nat)
    returns (dep': seq<nat>)
    requires k <= |m.fields| && RunsFields(m, k, s, t) && Sound(s) && m.l < |s.values| && m.r < |s.values|
    requires Depths(s.values, dep) && Capped(dep, cap) && dep[m.l] <= dep[m.r]
    ensures Ordered(t.values) && Depths(t.values, dep') && Capped(dep', cap) && dep <= dep'
    decreases m, k
  {
    dep' := dep;
    if k > 0 {
      var i := k - 1;
      var u := LastRound(m, i, s, t);
      var d := RunFieldsKeepDepths(m, i, s, u, dep, cap);
      dep' := RunFieldKeepsDepths(m, i, u, t, d, cap);
    }
  }

  lemma {:induction false} RunFieldKeepsDepths(m: Merging, i: nat, s: Snapshot, t: Snapshot, dep: seq<nat>, cap: nat)
    returns (dep': seq<nat>)
    requires i < |m.fields| && RunsField(m, i, s, t)
    requires Depths(s.values, dep) && Capped(dep, cap) && dep[m.l] <= dep[m.r]
    ensures Ordered(t.values) && Depths(t.values, dep') && Capped(dep', cap) && dep <= dep'
    decreases m, i
  {
    var f, nested := m.fields[i].0, m.fields[i].1;
    var x := WithField(s, m.l, m.r, f);
    WithFieldGrew(s, m.l, m.r, f);
    var d := WithFieldDepths(s, m.l, m.r, f, dep, cap);
    dep' := RunKeepsDepths(nested, x, t, d, cap);
  }

  /** A created field is no deeper than the field it copies. */
  lemma WithFieldDepths(s: Snapshot, l: nat, r: nat, f: nat, dep: seq<nat>, cap: nat) returns (dep': seq<nat>)
    requires Sound(s) && l < |s.values| && r < |s.values| && f in s.values[r].fields
    requires Depths(s.values, dep) && Capped(dep, cap) && dep[l] <= dep[r]
    ensures var x := WithField(s, l, r, f).values;
            Ordered(x) && Depths(x, dep') && Capped(dep', cap) && dep <= dep'
  {
    assert dep[s.values[r].fields[f]] == dep[r] + 1;
    if f in s.values[l].fields {
      dep' := dep;
    } else {
      dep' := dep + [dep[l] + 1];
      AddedDepths(s.values, l, f, Copied(s.values, l, s.values[r].fields[f], f), dep);
    }
  }

  lemma AddedDepths(v: Values, l: nat, f: nat, node: ValueNode, dep: seq<nat>)
    requires Ordered(v) && l < |v| && f !in v[l].fields && node.index == |v| && node.fields == map[] && Depths(v, dep)
    ensures Ordered(AddField(v, l, f, node)) && Depths(AddField(v, l, f, node), dep + [dep[l] + 1])
  {
    AddFieldOrdered(v, l, f, node);
    var w, dep' := AddField(v, l, f, node), dep + [dep[l] + 1];
    forall i, g | 0 <= i < |w| && g in w[i].fields ensures dep'[w[i].fields[g]] == dep'[i] + 1 {
      if i < |v| && g in v[i].fields {
        assert w[i].fields[g] == v[i].fields[g];
      }
    }
  }

  // ---------------------------------------------------------------- when the recursion ends

  /** The recursion on `l` and `r` is at most `fuel` calls deep: the right tree is out of reach, or
      the left node is no deeper than the right one, so that nothing is added below the deepest. */
  ghost predicate Ends(v: Values, l: nat, r: nat, fuel: nat) {
    && Ordered(v) && UniqueParent(v) && l < |v| && r < |v|
    && (|| (Disjoint(v, l, r) && forall n :: n in Desc(v, r) ==> n < r + fuel)
        || exists dep :: EndsByDepth(v, l, r, fuel, dep))
  }

  ghost predicate EndsByDepth(v: Values, l: nat, r: nat, fuel: nat, dep: seq<nat>)
    requires Ordered(v) && l < |v| && r < |v|
  {
    Depths(v, dep) && dep[l] <= dep[r] && Capped(dep, dep[r] + fuel)
  }

  lemma EndsNested(v: Values, l: nat, r: nat, fuel: nat, f: nat)
    requires Ends(v, l, r, fuel) && f in v[l].fields && f in v[r].fields
    ensures fuel > 0 && Ends(v, v[l].fields[f], v[r].fields[f], fuel - 1)
  {
    if exists dep :: EndsByDepth(v, l, r, fuel, dep) {
      var dep :| EndsByDepth(v, l, r, fuel, dep);
      NestedByDepth(v, l, r, fuel, f, dep);
    } else {
      NestedDisjoint(v, l, r, f);
    }
  }

  lemma NestedByDepth(v: Values, l: nat, r: nat, fuel: nat, f: nat, dep: seq<nat>)
    requires Ordered(v) && l < |v| && r < |v| && EndsByDepth(v, l, r, fuel, dep) && f in v[l].fields && f in v[r].fields
    ensures fuel > 0 && EndsByDepth(v, v[l].fields[f], v[r].fields[f], fuel - 1, dep)
  {
    assert dep[v[r].fields[f]] == dep[r] + 1 && dep[v[l].fields[f]] == dep[l] + 1;
  }

  lemma NestedDisjoint(v: Values, l: nat, r: nat, f: nat)
    requires Ordered(v) && l < |v| && r < |v| && Disjoint(v, l, r) && f in v[l].fields && f in v[r].fields
    ensures var l', r' := v[l].fields[f], v[r].fields[f];
            r < r' && r' in Desc(v, r) && Disjoint(v, l', r') && Desc(v, r') <= Desc(v, r)
  {
    DescClosed(v, l);
    DescClosed(v, r);
    DescInClosed(v, Desc(v, l), v[l].fields[f]);
    DescInClosed(v, Desc(v, r), v[r].fields[f]);
  }

  /** A round of the loop leaves the rest of it as bounded as before. */
  lemma RoundKeepsEnds(m: Merging, i: nat, s: Snapshot, t: Snapshot, fuel: nat)
    requires i < |m.fields| && RunsField(m, i, s, t) && Ends(s.values, m.l, m.r, fuel)
    ensures Ends(t.values, m.l, m.r, fuel)
  {
    RunFieldGrew(m, i, s, t);
    if exists dep :: EndsByDepth(s.values, m.l, m.r, fuel, dep) {
      var dep :| EndsByDepth(s.values, m.l, m.r, fuel, dep);
      var dep' := RunFieldKeepsDepths(m, i, s, t, dep, dep[m.r] + fuel);
      assert EndsByDepth(t.values, m.l, m.r, fuel, dep');
    } else {
      RoundKeepsDisjoint(m, i, s, t);
    }
  }

  lemma RoundKeepsDisjoint(m: Merging, i: nat, s: Snapshot, t: Snapshot)
    requires i < |m.fields| && RunsField(m, i, s, t) && Disjoint(s.values, m.l, m.r)
    ensures Ordered(t.values) && m.l < |t.values| && m.r < |t.values|
    ensures Disjoint(t.values, m.l, m.r) && Desc(t.values, m.r) <= Desc(s.values, m.r)
  {
    RunFieldGrew(m, i, s, t);
    var a, b := Desc(s.values, m.l), Desc(s.values, m.r);
    var f, nested := m.fields[i].0, m.fields[i].1;
    var x := WithField(s, m.l, m.r, f);
    DescClosed(s.values, m.l);
    DescClosed(s.values, m.r);
    WithFieldGrew(s, m.l, m.r, f);
    WithFieldFramed(s, m.l, m.r, f, a);
    RightTreeKept(s.values, x.values, a, b);
    var a' := a + Added(x.values, |s.values|);
    DescInClosed(x.values, a', nested.l);
    DescInClosed(x.values, b, nested.r);
    RunMerges(nested, x, t);
    FramedWiden(x.values, t.values, Desc(x.values, nested.l), a');
    FramedTrans(s.values, x.values, t.values, a);
    RightTreeKept(s.values, t.values, a, b);
    DescInClosed(t.values, a + Added(t.values, |s.values|), m.l);
    DescInClosed(t.values, b, m.r);
  }

  lemma WithFieldFramed(s: Snapshot, l: nat, r: nat, f: nat, a: set<nat>)
    requires Sound(s) && l < |s.values| && r < |s.values| && f in s.values[r].fields
    requires ClosedSet(s.values, a) && l in a
    ensures Framed(s.values, WithField(s, l, r, f).values, a)
  {
    if f in s.values[l].fields {
      FramedSelf(s.values, a);
    } else {
      FramedAdd(s.values, a, l, f, Copied(s.values, l, s.values[r].fields[f], f));
    }
  }

  /** The recursion is bounded exactly when the left node is not strictly below the right one. */
  lemma EndsIff(v: Values, l: nat, r: nat)
    requires Ordered(v) && UniqueParent(v) && l < |v| && r < |v|
    ensures (exists fuel :: Ends(v, l, r, fuel)) <==> !StrictlyBelow(v, r, l)
    ensures !StrictlyBelow(v, r, l) ==> Ends(v, l, r, |v|)
  {
    var dep := SomeDepths(v);
    if !StrictlyBelow(v, r, l) {
      if !Disjoint(v, l, r) {
        var x :| x in Desc(v, l) && x in Desc(v, r);
        var p :| At(v, l, p) == Some(x);
        var q :| At(v, r, q) == Some(x);
        var up := Comparable(v, l, r, p, q);
        DepthAt(v, dep, l, up);
        assert EndsByDepth(v, l, r, |v|, dep);
      }
      assert Ends(v, l, r, |v|);
    } else {
      var path :| path != [] && At(v, r, path) == Some(l);
      forall fuel ensures !Ends(v, l, r, fuel) {
        NeverEnds(v, l, r, path, fuel);
      }
    }
  }

  lemma DisjointEnds(v: Values, l: nat, r: nat)
    requires Ordered(v) && UniqueParent(v) && l < |v| && r < |v| && Desc(v, l) !! Desc(v, r)
    ensures Disjoint(v, l, r) && Ends(v, l, r, |v|)
  {
  }

  lemma NeverEnds(v: Values, l: nat, r: nat, path: seq<nat>, fuel: nat)
    requires Ordered(v) && l < |v| && r < |v| && path != [] && At(v, r, path) == Some(l)
    ensures !Ends(v, l, r, fuel)
  {
    if exists dep :: EndsByDepth(v, l, r, fuel, dep) {
      var dep :| EndsByDepth(v, l, r, fuel, dep);
      DepthAt(v, dep, r, path);
    }
    DescClosed(v, l);
    assert l in Desc(v, l) && l in Desc(v, r);
  }

  /** Two nodes above a common one lie one above the other. */
  lemma {:induction false} Comparable(v: Values, l: nat, r: nat, p: seq<nat>, q: seq<nat>) returns (up: seq<nat>)
    requires Ordered(v) && UniqueParent(v) && l < |v| && r < |v|
    requires At(v, l, p).Some? && At(v, l, p) == At(v, r, q) && !StrictlyBelow(v, r, l)
    ensures At(v, l, up) == Some(r)
    decreases |p| + |q|
  {
    if q == [] {
      up := p;
    } else {
      assert p != [];
      AtLast(v, l, p);
      AtLast(v, r, q);
      up := Comparable(v, l, r, p[..|p| - 1], q[..|q| - 1]);
    }
  }

  // ---------------------------------------------------------------- building runs

  /** Rounds are the same in a longer list of fields. */
  lemma {:induction false} RoundsInLonger(m: Merging, m': Merging, k: nat, s: Snapshot, t: Snapshot)
    requires m'.l == m.l && m'.r == m.r && m.fields <= m'.fields && k <= |m.fields| && RunsFields(m, k, s, t)
    ensures RunsFields(m', k, s, t)
    decreases k
  {
    if k > 0 {
      var i := k - 1;
      var u := LastRound(m, i, s, t);
      RoundsInLonger(m, m', i, s, u);
      assert RunsField(m', i, u, t);
    }
  }

  /** One more round. */
  lemma RunsOn(m: Merging, f: nat, nested: Merging, s: Snapshot, u: Snapshot, t: Snapshot)
    requires RunsFields(m, |m.fields|, s, u) && Calls(m.l, m.r, f, nested, u)
    requires Runs(nested, WithField(u, m.l, m.r, f), t)
    ensures var m' := m.(fields := m.fields + [(f, nested)]);
            RunsFields(m', |m'.fields|, s, t) && RunsField(m', |m.fields|, u, t)
  {
    var m' := m.(fields := m.fields + [(f, nested)]);
    var k := |m.fields|;
    RoundsInLonger(m, m', k, s, u);
    assert m'.fields[k] == (f, nested);
    assert RunsField(m', k, u, t);
    assert RunsFields(m', k + 1, s, t);
  }

  /** The loop of a run under construction, with the fields in `todo` to go. */
  ghost predicate Building(m: Merging, start: Snapshot, t: Snapshot, keys: set<nat>, todo: set<nat>, fuel: nat) {
    && todo <= keys && ListsRest(m.fields, keys, todo) && m.l < |start.values| && m.r < |start.values|
    && keys == start.values[m.r].fields.Keys && Grew(start, t) && RunsFields(m, |m.fields|, start, t)
    && Ends(t.values, m.l, m.r, fuel)
  }

  /** One more round. */
  lemma BuildOn(m: Merging, start: Snapshot, u: Snapshot, t: Snapshot, keys: set<nat>, todo: set<nat>, fuel: nat,
                f: nat,
                nested: Merging)
    requires Calls(m.l, m.r, f, nested, u)
    ensures Building(m, start, u, keys, todo, fuel) && f in todo && Runs(nested, WithField(u, m.l, m.r, f), t) ==>
              Building(m.(fields := m.fields + [(f, nested)]), start, t, keys, todo - {f}, fuel)
  {
    if Building(m, start, u, keys, todo, fuel) && f in todo && Runs(nested, WithField(u, m.l, m.r, f), t) {
      var longer, k := m.(fields := m.fields + [(f, nested)]), |m.fields|;
      RunsOn(m, f, nested, start, u, t);
      ListsMore(m.fields, keys, todo, f, nested);
      RunFieldGrew(longer, k, u, t);
      RoundKeepsEnds(longer, k, u, t, fuel);
      GrewTrans(start, u, t);
    }
  }

  /** Where the nested call starts, and that it is bounded. */
  ghost predicate CanCall(l: nat, r: nat, f: nat, s: Snapshot, fuel: nat) {
    && fuel > 0 && Sound(s) && l < |s.values| && r < |s.values| && f in s.values[r].fields
    && Sound(WithField(s, l, r, f)) && HasField(WithField(s, l, r, f).values, l, f)
    && Ends(WithField(s, l, r, f).values, NestedLeft(l, r, f, s), s.values[r].fields[f], fuel - 1)
  }

  ghost predicate HasField(v: Values, l: nat, f: nat) { l < |v| && f in v[l].fields }

  /** The left node of the nested call. */
  ghost function NestedLeft(l: nat, r: nat, f: nat, s: Snapshot): nat
    requires Sound(s) && l < |s.values| && r < |s.values| && f in s.values[r].fields
    requires HasField(WithField(s, l, r, f).values, l, f)
  {
    WithField(s, l, r, f).values[l].fields[f]
  }

  lemma NestedStart(m: Merging, start: Snapshot, u: Snapshot, keys: set<nat>, todo: set<nat>, fuel: nat, f: nat)
    ensures Building(m, start, u, keys, todo, fuel) && f in todo ==> CanCall(m.l, m.r, f, u, fuel)
  {
    if Building(m, start, u, keys, todo, fuel) && f in todo {
      assert f in start.values[m.r].fields;
      WithFieldGrew(u, m.l, m.r, f);
      WithFieldEnds(u, m.l, m.r, f, fuel);
      EndsNested(WithField(u, m.l, m.r, f).values, m.l, m.r, fuel, f);
    }
  }

  lemma BuildStart(s: Snapshot, l: nat, r: nat, fuel: nat)
    requires Sound(s) && Ends(s.values, l, r, fuel)
    ensures var start := Snapshot(s.values, United(s.aliasSet, l, r));
            Building(Merging(l, r, []), start, start, s.values[r].fields.Keys, s.values[r].fields.Keys, fuel)
  {
    UnitedFlat(s.aliasSet, l, r);
  }

  lemma BuildEnd(m: Merging, s: Snapshot, t: Snapshot, keys: set<nat>, fuel: nat)
    requires Sound(s) && m.l < |s.values| && m.r < |s.values|
    requires Building(m, Snapshot(s.values, United(s.aliasSet, m.l, m.r)), t, keys, {}, fuel)
    ensures Runs(m, s, t)
  {
  }

  /** Some run: the loop with any choice of the next field. */
  lemma {:induction false} SomeRun(s: Snapshot, l: nat, r: nat, fuel: nat) returns (m: Merging, t: Snapshot)
    requires Sound(s) && Ends(s.values, l, r, fuel)
    ensures Runs(m, s, t) && m.l == l && m.r == r
    decreases fuel, 1
  {
    var start := Snapshot(s.values, United(s.aliasSet, l, r));
    m, t := Merging(l, r, []), start;
    var keys := s.values[r].fields.Keys;
    var todo := keys;
    BuildStart(s, l, r, fuel);
    while todo != {}
      invariant m.l == l && m.r == r && Building(m, start, t, keys, todo, fuel)
      decreases todo
    {
      var f :| f in todo;
      NestedStart(m, start, t, keys, todo, fuel, f);
      var nested, after := SomeNested(l, r, f, t, fuel);
      BuildOn(m, start, t, after, keys, todo, fuel, f, nested);
      m, t, todo := m.(fields := m.fields + [(f, nested)]), after, todo - {f};
    }
    BuildEnd(m, s, t, keys, fuel);
  }

  lemma {:induction false} SomeNested(l: nat, r: nat, f: nat, u: Snapshot, fuel: nat)
    returns (nested: Merging, t: Snapshot)
    requires CanCall(l, r, f, u, fuel)
    ensures Calls(l, r, f, nested, u) && Runs(nested, WithField(u, l, r, f), t)
    decreases fuel, 0
  {
    nested, t := SomeRun(WithField(u, l, r, f), NestedLeft(l, r, f, u), u.values[r].fields[f], fuel - 1);
  }

  /** All but the fields in `todo` are listed. */
  ghost predicate ListsRest(fields: seq<(nat, Merging)>, keys: set<nat>, todo: set<nat>) {
    && (forall i :: 0 <= i < |fields| ==> fields[i].0 in keys && fields[i].0 !in todo)
    && (forall f :: f in keys && f !in todo ==> exists i :: 0 <= i < |fields| && fields[i].0 == f)
    && (forall i, j :: 0 <= i < j < |fields| ==> fields[i].0 != fields[j].0)
  }

  lemma ListsMore(fields: seq<(nat, Merging)>, keys: set<nat>, todo: set<nat>, f: nat, nested: Merging)
    requires ListsRest(fields, keys, todo) && f in todo && todo <= keys
    ensures ListsRest(fields + [(f, nested)], keys, todo - {f})
  {
    var longer := fields + [(f, nested)];
    forall g | g in keys && g !in todo - {f} ensures exists i :: 0 <= i < |longer| && longer[i].0 == g {
      if g == f {
        assert longer[|fields|].0 == g;
      } else {
        var i :| 0 <= i < |fields| && fields[i].0 == g;
        assert longer[i].0 == g;
      }
    }
  }

  lemma WithFieldEnds(s: Snapshot, l: nat, r: nat, f: nat, fuel: nat)
    requires Sound(s) && l < |s.values| && r < |s.values| && f in s.values[r].fields && Ends(s.values, l, r, fuel)
    ensures Ends(WithField(s, l, r, f).values, l, r, fuel)
  {
    var x := WithField(s, l, r, f);
    WithFieldGrew(s, l, r, f);
    if exists dep :: EndsByDepth(s.values, l, r, fuel, dep) {
      var dep :| EndsByDepth(s.values, l, r, fuel, dep);
      var dep' := WithFieldDepths(s, l, r, f, dep, dep[r] + fuel);
      assert EndsByDepth(x.values, l, r, fuel, dep');
    } else {
      var a, b := Desc(s.values, l), Desc(s.values, r);
      DescClosed(s.values, l);
      DescClosed(s.values, r);
      WithFieldFramed(s, l, r, f, a);
      RightTreeKept(s.values, x.values, a, b);
      DescInClosed(x.values, a + Added(x.values, |s.values|), l);
      DescInClosed(x.values, b, r);
    }
  }

  /** Some run of `merge_alias` on `l` and `r` ends. */
  ghost predicate Finishes(s: Snapshot, l: nat, r: nat) {
    exists m, t :: Runs(m, s, t) && m.l == l && m.r == r
  }

  /** `merge_alias` ends if and only if the left node is not strictly below the right one. */
  lemma MergeEndsIff(s: Snapshot, l: nat, r: nat)
    requires Sound(s) && l < |s.values| && r < |s.values|
    ensures Finishes(s, l, r) <==> !StrictlyBelow(s.values, r, l)
  {
    EndsIff(s.values, l, r);
    if StrictlyBelow(s.values, r, l) {
      var path :| path != [] && At(s.values, r, path) == Some(l);
      if Finishes(s, l, r) {
        var m, t :| Runs(m, s, t) && m.l == l && m.r == r;
        NoRunFromBelow(m, s, t, path);
      }
    } else {
      var m, t := SomeRun(s, l, r, |s.values|);
      assert Runs(m, s, t) && m.l == l && m.r == r;
    }
  }
}
