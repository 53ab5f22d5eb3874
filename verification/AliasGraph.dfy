/** The mutable part of the MoP analysis of one function: the value arena and the parent
    array, with the operations that walk, grow and merge them. */
module AliasGraph {
  import opened Wrappers
  import opened UnionFind
  import opened Arena
  import opened MergeTrees
  import opened MergeRuns

  // ---------------------------------------------------------------- places

  /** One step of a MIR place; a field carries the drop flags and kind that its type gives
      to a fresh node. */
  datatype Proj = Deref | Field(field: nat, needDrop: bool, mayDrop: bool, kind: Kind) | OtherProj

  datatype Place = Place(local: nat, projection: seq<Proj>)

  /** The field numbers of a projection. */
  function FieldPath(projs: seq<Proj>): (path: seq<nat>) {
    if projs == [] then []
    else if projs[0].Field? then [projs[0].field] + FieldPath(projs[1..])
    else FieldPath(projs[1..])
  }

  /** The arena and the node that a projection leads to, creating missing fields. */
  function Walk(v: Values, local: nat, id: nat, projs: seq<Proj>): (r: (Values, nat))
    requires Ordered(v) && id < |v|
    ensures Ordered(r.0) && r.1 < |r.0| && |v| <= |r.0|
    decreases projs
  {
    if projs == [] then (v, id)
    else
      match projs[0]
      case Field(f, needDrop, mayDrop, kind) =>
        if f in v[id].fields then Walk(v, local, v[id].fields[f], projs[1..])
        else
          var node := NewNode(|v|, local, needDrop, mayDrop, kind, f);
          AddFieldOrdered(v, id, f, node);
          Walk(AddField(v, id, f, node), local, |v|, projs[1..])
      case _ => Walk(v, local, id, projs[1..])
  }

  /** A walk only adds fields and ends at the node its field path names. */
  lemma {:induction false} WalkReaches(v: Values, local: nat, id: nat, projs: seq<Proj>)
    requires Ordered(v) && id < |v|
    ensures var (w, n) := Walk(v, local, id, projs);
            Extends(v, w) && At(w, id, FieldPath(projs)) == Some(n)
    decreases projs
  {
    var (w, n) := Walk(v, local, id, projs);
    if projs != [] {
      match projs[0]
      case Field(f, needDrop, mayDrop, kind) =>
        var rest := FieldPath(projs[1..]);
        if f in v[id].fields {
          WalkReaches(v, local, v[id].fields[f], projs[1..]);
          AtField(w, id, f, rest);
        } else {
          var node := NewNode(|v|, local, needDrop, mayDrop, kind, f);
          AddFieldOrdered(v, id, f, node);
          var u := AddField(v, id, f, node);
          WalkReaches(u, local, |v|, projs[1..]);
          ExtendsTrans(v, u, w);
          assert f in u[id].fields && u[id].fields[f] == |v|;
          AtField(w, id, f, rest);
        }
      case _ =>
        WalkReaches(v, local, id, projs[1..]);
    }
  }

  /** It adds them, all with the given local, inside any closed set that holds its start. */
  lemma {:induction false} WalkAddsBelow(v: Values, local: nat, id: nat, projs: seq<Proj>, s: set<nat>)
    requires Ordered(v) && ClosedSet(v, s) && id in s && id < |v|
    ensures var (w, _) := Walk(v, local, id, projs);
            OnlyChanges(v, w, s) && forall i :: |v| <= i < |w| ==> w[i].local == local
    decreases projs
  {
    if projs != [] {
      match projs[0]
      case Field(f, needDrop, mayDrop, kind) =>
        if f in v[id].fields {
          WalkAddsBelow(v, local, v[id].fields[f], projs[1..], s);
        } else {
          var node := NewNode(|v|, local, needDrop, mayDrop, kind, f);
          AddFieldOrdered(v, id, f, node);
          AddFieldClosed(v, id, f, node, s);
          var u := AddField(v, id, f, node);
          WalkAddsBelow(u, local, |v|, projs[1..], s + {|v|});
          WalkReaches(u, local, |v|, projs[1..]);
        }
      case _ =>
        WalkAddsBelow(v, local, id, projs[1..], s);
    }
  }

  /** Node `i` is the field that step `k` leads to, and has the drop flags and kind of that step. */
  ghost predicate StampedAt(w: Values, id: nat, projs: seq<Proj>, k: nat, i: nat)
    requires Ordered(w) && id < |w|
  {
    && k < |projs| && projs[k].Field? && i < |w| && At(w, id, FieldPath(projs[..k + 1])) == Some(i)
    && w[i].needDrop == projs[k].needDrop && w[i].mayDrop == projs[k].mayDrop && w[i].kind == projs[k].kind
  }

  ghost predicate Stamped(w: Values, id: nat, projs: seq<Proj>, i: nat)
    requires Ordered(w) && id < |w|
  {
    exists k: nat :: StampedAt(w, id, projs, k, i)
  }

  /** All nodes from index `from` on. */
  ghost predicate AllStamped(w: Values, id: nat, projs: seq<Proj>, from: nat)
    requires Ordered(w) && id < |w|
  {
    forall i :: from <= i < |w| ==> Stamped(w, id, projs, i)
  }

  /** Every node that a walk adds is the field of one of its steps, with the flags and kind of it. */
  lemma {:induction false} WalkStamps(v: Values, local: nat, id: nat, projs: seq<Proj>)
    requires Ordered(v) && id < |v|
    ensures AllStamped(Walk(v, local, id, projs).0, id, projs, |v|)
    decreases projs
  {
    if projs != [] {
      var (w, n) := Walk(v, local, id, projs);
      WalkReaches(v, local, id, projs);
      match projs[0]
      case Field(f, needDrop, mayDrop, kind) =>
        if f in v[id].fields {
          var child := v[id].fields[f];
          WalkStamps(v, local, child, projs[1..]);
          assert w == Walk(v, local, child, projs[1..]).0 && w[id].fields[f] == child;
          StampedAll(w, id, child, projs, |v|);
        } else {
          var node := NewNode(|v|, local, needDrop, mayDrop, kind, f);
          AddFieldOrdered(v, id, f, node);
          var u := AddField(v, id, f, node);
          WalkStamps(u, local, |v|, projs[1..]);
          WalkReaches(u, local, |v|, projs[1..]);
          assert f in u[id].fields && u[id].fields[f] == |v| && u[|v|] == node;
          FirstStamped(w, id, projs);
          StampedAll(w, id, |v|, projs, |u|);
        }
      case _ =>
        WalkStamps(v, local, id, projs[1..]);
        assert w == Walk(v, local, id, projs[1..]).0;
        StampedAll(w, id, id, projs, |v|);
    }
  }

  lemma StampedAll(w: Values, id: nat, child: nat, projs: seq<Proj>, from: nat)
    requires Ordered(w) && id < |w| && projs != [] && (projs[0].Field? ==> projs[0].field in w[id].fields)
    requires child == (if projs[0].Field? then w[id].fields[projs[0].field] else id)
    requires AllStamped(w, child, projs[1..], from)
    ensures AllStamped(w, id, projs, from)
  {
    forall i | from <= i < |w| ensures Stamped(w, id, projs, i) {
      StampedBelow(w, id, projs, i);
    }
  }

  lemma FirstStamped(w: Values, id: nat, projs: seq<Proj>)
    requires Ordered(w) && id < |w| && projs != [] && projs[0].Field? && projs[0].field in w[id].fields
    requires var i := w[id].fields[projs[0].field];
             w[i].needDrop == projs[0].needDrop && w[i].mayDrop == projs[0].mayDrop && w[i].kind == projs[0].kind
    ensures Stamped(w, id, projs, w[id].fields[projs[0].field])
  {
    var i := w[id].fields[projs[0].field];
    assert projs[..1] == [projs[0]] && [projs[0]][1..] == [];
    assert FieldPath([projs[0]]) == [projs[0].field] && [projs[0].field][1..] == [];
    assert At(w, i, []) == Some(i);
    assert StampedAt(w, id, projs, 0, i);
  }

  lemma StampedBelow(w: Values, id: nat, projs: seq<Proj>, i: nat)
    requires Ordered(w) && id < |w| && projs != [] && (projs[0].Field? ==> projs[0].field in w[id].fields)
    requires Stamped(w, if projs[0].Field? then w[id].fields[projs[0].field] else id, projs[1..], i)
    ensures Stamped(w, id, projs, i)
  {
    var child := if projs[0].Field? then w[id].fields[projs[0].field] else id;
    var k: nat :| StampedAt(w, child, projs[1..], k, i);
    var path := FieldPath(projs[1..][..k + 1]);
    assert projs[..k + 2][0] == projs[0] && projs[..k + 2][1..] == projs[1..][..k + 1];
    if projs[0].Field? {
      AtField(w, id, projs[0].field, path);
    }
    assert StampedAt(w, id, projs, k + 1, i);
  }

  /** Projections from a local keep the forest. */
  lemma {:induction false} WalkKeepsTrees(v: Values, local: nat, id: nat, projs: seq<Proj>, n: nat)
    requires Ordered(v) && Trees(v, n) && id < |v| && v[id].local == local
    ensures var (w, k) := Walk(v, local, id, projs);
            Trees(w, n) && w[k].local == local
    decreases projs
  {
    if projs != [] {
      match projs[0]
      case Field(f, needDrop, mayDrop, kind) =>
        if f in v[id].fields {
          WalkKeepsTrees(v, local, v[id].fields[f], projs[1..], n);
        } else {
          var node := NewNode(|v|, local, needDrop, mayDrop, kind, f);
          AddFieldOrdered(v, id, f, node);
          AddFieldTrees(v, id, f, node, n);
          WalkKeepsTrees(AddField(v, id, f, node), local, |v|, projs[1..], n);
        }
      case _ =>
        WalkKeepsTrees(v, local, id, projs[1..], n);
    }
  }

  lemma WalkKeepsArena(v: Values, p: seq<nat>, local: nat, projs: seq<Proj>, n: nat)
    requires ArenaInv(v, p, n) && local < n
    ensures var (w, k) := Walk(v, local, local, projs);
            ArenaInv(w, Grown(p, |w|), n) && w[k].local == local
  {
    WalkKeepsTrees(v, local, local, projs, n);
    GrownAcyclic(p, |Walk(v, local, local, projs).0|);
  }

  lemma {:induction false} WalkAppend(v: Values, local: nat, id: nat, a: seq<Proj>, b: seq<Proj>)
    requires Ordered(v) && id < |v|
    ensures var (w, k) := Walk(v, local, id, a);
            Walk(v, local, id, a + b) == Walk(w, local, k, b)
    decreases |a|
  {
    if a == [] {
      assert a + b == b;
    } else {
      assert (a + b)[0] == a[0] && (a + b)[1..] == a[1..] + b;
      match a[0]
      case Field(f, needDrop, mayDrop, kind) =>
        if f in v[id].fields {
          WalkAppend(v, local, v[id].fields[f], a[1..], b);
        } else {
          var node := NewNode(|v|, local, needDrop, mayDrop, kind, f);
          AddFieldOrdered(v, id, f, node);
          WalkAppend(AddField(v, id, f, node), local, |v|, a[1..], b);
        }
      case _ =>
        WalkAppend(v, local, id, a[1..], b);
    }
  }

  lemma WalkNext(v: Values, local: nat, steps: seq<Proj>, k: nat)
    requires Ordered(v) && local < |v| && k < |steps|
    ensures var (w, id) := Walk(v, local, local, steps[..k]);
            Walk(v, local, local, steps[..k + 1]) == Walk(w, local, id, [steps[k]])
  {
    assert steps[..k + 1] == steps[..k] + [steps[k]];
    WalkAppend(v, local, local, steps[..k], [steps[k]]);
  }

  // ---------------------------------------------------------------- assignments

  datatype AssignType = Copy | Move | InitBox | Variant

  datatype Assignment = Assignment(lv: Place, rv: Place, atype: AssignType)

  /** `NoBoxField`: the source panics on the missing field 0. `LoopingLink`: a discriminant
      link closed a cycle of parents, on which `union_find` would never return. */
  datatype Outcome = Completed | NoBoxField | LoopingLink

  /** The arena and the two nodes that an assignment's places resolve to. */
  ghost function Resolved(v: Values, a: Assignment): (r: (Values, nat, nat))
    requires Ordered(v) && a.lv.local < |v| && a.rv.local < |v|
    ensures Ordered(r.0) && |v| <= |r.0| && r.1 < |r.0| && r.2 < |r.0|
  {
    var (v1, l) := Walk(v, a.lv.local, a.lv.local, a.lv.projection);
    var (v2, r) := Walk(v1, a.rv.local, a.rv.local, a.rv.projection);
    (v2, l, r)
  }

  /** Nodes of one local are left alone; otherwise the trees are merged. */
  ghost predicate GuardedMerge(v: Values, p: seq<nat>, l: nat, r: nat, w: Values, q: seq<nat>)
    requires Ordered(v) && l < |v| && r < |v|
  {
    if v[l].local != v[r].local
    then Ordered(w) && Framed(v, w, Desc(v, l)) && Merged(v, p, w, q, l, r)
    else w == v && q == p
  }

  /** What one assignment does. */
  ghost predicate Assigned(v: Values, p: seq<nat>, a: Assignment, w: Values, q: seq<nat>, outcome: Outcome)
    requires Ordered(v) && a.lv.local < |v| && a.rv.local < |v| && |p| == |v| && Acyclic(p)
  {
    var (v', l, r) := Resolved(v, a);
    var p' := Grown(p, |v'|);
    match a.atype
    case Variant =>
      w == v' && q == p'[l := r] && outcome == if Acyclic(q) then Completed else LoopingLink
    case InitBox =>
      if 0 in v'[l].fields
      then outcome == Completed && GuardedMerge(v', p', v'[l].fields[0], r, w, q)
      else outcome == NoBoxField && w == v' && q == p'
    case _ =>
      outcome == Completed && GuardedMerge(v', p', l, r, w, q)
  }

  lemma ResolvedKeeps(v: Values, a: Assignment, n: nat)
    requires Ordered(v) && Trees(v, n) && a.lv.local < n && a.rv.local < n
    ensures var (w, l, r) := Resolved(v, a);
            Trees(w, n) && Extends(v, w) && w[l].local == a.lv.local && w[r].local == a.rv.local
            && At(w, a.lv.local, FieldPath(a.lv.projection)) == Some(l)
            && At(w, a.rv.local, FieldPath(a.rv.projection)) == Some(r)
  {
    var (v1, l) := Walk(v, a.lv.local, a.lv.local, a.lv.projection);
    WalkReaches(v, a.lv.local, a.lv.local, a.lv.projection);
    WalkKeepsTrees(v, a.lv.local, a.lv.local, a.lv.projection, n);
    var (v2, r) := Walk(v1, a.rv.local, a.rv.local, a.rv.projection);
    WalkReaches(v1, a.rv.local, a.rv.local, a.rv.projection);
    WalkKeepsTrees(v1, a.rv.local, a.rv.local, a.rv.projection, n);
    ExtendsTrans(v, v1, v2);
    AtExtends(v1, v2, a.lv.local, FieldPath(a.lv.projection));
  }

  lemma ResolvedArena(v: Values, p: seq<nat>, a: Assignment, n: nat)
    requires ArenaInv(v, p, n) && a.lv.local < n && a.rv.local < n
    ensures var (w, l, r) := Resolved(v, a);
            ArenaInv(w, Grown(p, |w|), n) && Extends(v, w)
  {
    ResolvedKeeps(v, a, n);
    GrownAcyclic(p, |Resolved(v, a).0|);
  }

  /** The guard `local !=` makes the two trees disjoint. */
  lemma GuardSeparates(v: Values, l: nat, r: nat)
    requires Ordered(v) && SharesLocal(v) && l < |v| && r < |v| && v[l].local != v[r].local
    ensures Desc(v, l) !! Desc(v, r)
  {
    LocalIsClosed(v, v[l].local);
    LocalIsClosed(v, v[r].local);
    DescInClosed(v, OfLocal(v, v[l].local), l);
    DescInClosed(v, OfLocal(v, v[r].local), r);
  }

  /** Only discriminant links can take places out of a class. */
  lemma AssignmentCoarsens(v: Values, p: seq<nat>, a: Assignment, w: Values, q: seq<nat>, outcome: Outcome, x: nat,
                           y: nat)
    requires Ordered(v) && a.lv.local < |v| && a.rv.local < |v| && |p| == |v| && Acyclic(p)
    requires Assigned(v, p, a, w, q, outcome) && !a.atype.Variant? && Same(p, x, y)
    ensures Same(q, x, y)
  {
    var (v', l, r) := Resolved(v, a);
    var p' := Grown(p, |v'|);
    GrownAcyclic(p, |v'|);
    assert Same(p', x, y);
    if q != p' {
      var target := if a.atype.InitBox? then v'[l].fields[0] else l;
      MergedKeeps(v', p', w, q, target, r, x, y);
    }
  }

  /** After a guarded merge of nodes of different locals, everything below the right one is below the
      left one too, and aliases it. */
  lemma GuardedAliases(v: Values, p: seq<nat>, l: nat, r: nat, w: Values, q: seq<nat>, path: seq<nat>)
    requires Ordered(v) && SharesLocal(v) && |p| == |v| && Acyclic(p) && l < |v| && r < |v| && v[l].local != v[r].local
    requires GuardedMerge(v, p, l, r, w, q) && At(w, r, path).Some?
    ensures At(w, l, path).Some? && Same(q, At(w, l, path).value, At(w, r, path).value)
  {
    GuardSeparates(v, l, r);
    MergedPaths(v, p, w, q, l, r, path);
    MergedAliases(v, p, w, q, l, r, path);
  }

  /** After a copy or move between places of different locals, the two places alias, and so do all
      matching places below them: what is there on the right is there on the left. */
  lemma AssignmentAliases(v: Values, p: seq<nat>, a: Assignment, w: Values, q: seq<nat>, n: nat, path: seq<nat>)
    requires ArenaInv(v, p, n) && a.lv.local < n && a.rv.local < n && a.lv.local != a.rv.local
    requires Assigned(v, p, a, w, q, Completed) && (a.atype.Copy? || a.atype.Move?)
    ensures Ordered(w) && |v| <= |w| && PlacesMatch(w, q, a, path)
  {
    var (v', l, r) := Resolved(v, a);
    ResolvedArena(v, p, a, n);
    ResolvedKeeps(v, a, n);
    AtExtends(v', w, a.lv.local, FieldPath(a.lv.projection));
    AtExtends(v', w, a.rv.local, FieldPath(a.rv.projection));
    PathsCompose(w, q, a, l, r, path);
    if At(w, r, path).Some? {
      GuardedAliases(v', Grown(p, |v'|), l, r, w, q, path);
    }
  }

  ghost predicate PlacesMatch(w: Values, q: seq<nat>, a: Assignment, path: seq<nat>)
    requires Ordered(w) && a.lv.local < |w| && a.rv.local < |w|
  {
    var l := At(w, a.lv.local, FieldPath(a.lv.projection) + path);
    var r := At(w, a.rv.local, FieldPath(a.rv.projection) + path);
    r.Some? ==> l.Some? && Same(q, l.value, r.value)
  }

  lemma PathsCompose(w: Values, q: seq<nat>, a: Assignment, l: nat, r: nat, path: seq<nat>)
    requires Ordered(w) && a.lv.local < |w| && a.rv.local < |w| && l < |w| && r < |w|
    requires At(w, a.lv.local, FieldPath(a.lv.projection)) == Some(l)
    requires At(w, a.rv.local, FieldPath(a.rv.projection)) == Some(r)
    ensures PlacesMatch(w, q, a, path) <==>
            (At(w, r, path).Some? ==> At(w, l, path).Some? && Same(q, At(w, l, path).value, At(w, r, path).value))
  {
    AtConcat(w, a.lv.local, FieldPath(a.lv.projection), path);
    AtConcat(w, a.rv.local, FieldPath(a.rv.projection), path);
  }

  function InsertAll(m: map<nat, nat>, pairs: seq<(nat, nat)>): (r: map<nat, nat>)
    decreases |pairs|
  {
    if pairs == [] then m else InsertAll(m[pairs[0].0 := pairs[0].1], pairs[1..])
  }

  /** The last constant recorded for a local counts, and locals without one keep what they had. */
  lemma {:induction false} LastConstantWins(m: map<nat, nat>, pairs: seq<(nat, nat)>, e: nat)
    ensures forall k :: LastFor(pairs, e, k) ==> e in InsertAll(m, pairs) && InsertAll(m, pairs)[e] == pairs[k].1
    ensures (forall i :: 0 <= i < |pairs| ==> pairs[i].0 != e) ==>
              (e in InsertAll(m, pairs) <==> e in m) && (e in m ==> InsertAll(m, pairs)[e] == m[e])
    decreases |pairs|
  {
    if pairs != [] {
      var rest, m' := pairs[1..], m[pairs[0].0 := pairs[0].1];
      LastConstantWins(m', rest, e);
      assert forall i :: 0 <= i < |rest| ==> rest[i] == pairs[i + 1];
      forall k | LastFor(pairs, e, k) ensures e in InsertAll(m, pairs) && InsertAll(m, pairs)[e] == pairs[k].1 {
        if k > 0 {
          assert LastFor(rest, e, k - 1);
        } else {
          assert e in InsertAll(m', rest) && InsertAll(m', rest)[e] == m'[e];
        }
      }
    }
  }

  /** Pair `k` is the last one for `e`. */
  ghost predicate LastFor(pairs: seq<(nat, nat)>, e: nat, k: int) {
    0 <= k < |pairs| && pairs[k].0 == e && forall i :: k < i < |pairs| ==> pairs[i].0 != e
  }

  /** Whether the search from `e` passes `m`. */
  method SearchPasses(p: seq<nat>, e: nat, m: nat) returns (found: bool)
    requires Acyclic(p) && e < |p|
    ensures found <==> m in Visits(p, e)
  {
    var r: nat := e;
    found := r == m;
    while p[r] != r && !found
      invariant r < |p| && (m in Visits(p, e) <==> m in Visits(p, r))
      invariant found <==> r == m
      decreases RankOf(p)[r]
    {
      r := p[r];
      found := r == m;
    }
  }

  // ---------------------------------------------------------------- function summaries

  /** One aliasing pair of a function: 0 is the return place, k the k-th argument. */
  datatype RetAlias = RetAlias(
    leftIndex: nat, leftFields: seq<nat>, leftMayDrop: bool, leftNeedDrop: bool,
    rightIndex: nat, rightFields: seq<nat>, rightMayDrop: bool, rightNeedDrop: bool)
  {
    predicate Valuable() {
      leftMayDrop && rightMayDrop
    }
  }

  /** The walk that `merge` makes: missing fields become raw pointers with the pair's flags. */
  function FieldSteps(fields: seq<nat>, needDrop: bool, mayDrop: bool): (s: seq<Proj>) {
    seq(|fields|, i requires 0 <= i < |fields| => Field(fields[i], needDrop, mayDrop, RawPtr))
  }

  lemma {:induction false} FieldStepsPath(fields: seq<nat>, needDrop: bool, mayDrop: bool)
    ensures FieldPath(FieldSteps(fields, needDrop, mayDrop)) == fields
    decreases |fields|
  {
    if fields != [] {
      var s := FieldSteps(fields, needDrop, mayDrop);
      assert s[1..] == FieldSteps(fields[1..], needDrop, mayDrop);
      FieldStepsPath(fields[1..], needDrop, mayDrop);
    }
  }

  /** Node `i` is a field on the way `fields` from `id`, a raw pointer with the given flags. */
  ghost predicate OnTheWay(w: Values, id: nat, fields: seq<nat>, needDrop: bool, mayDrop: bool, i: nat)
    requires Ordered(w) && id < |w|
  {
    && i < |w| && w[i].needDrop == needDrop && w[i].mayDrop == mayDrop && w[i].kind == RawPtr
    && exists k: nat :: LeadsTo(w, id, fields, k, i)
  }

  ghost predicate LeadsTo(w: Values, id: nat, fields: seq<nat>, k: nat, i: nat)
    requires Ordered(w) && id < |w|
  {
    k < |fields| && At(w, id, fields[..k + 1]) == Some(i)
  }

  ghost predicate AllOnTheWay(w: Values, id: nat, fields: seq<nat>, needDrop: bool, mayDrop: bool, from: nat, to: nat)
    requires Ordered(w) && id < |w|
  {
    forall i :: from <= i < to ==> OnTheWay(w, id, fields, needDrop, mayDrop, i)
  }

  /** Every node that the field walk of a pair adds is a field on the way, with the pair's flags. */
  lemma FieldWalkAdds(v: Values, local: nat, fields: seq<nat>, needDrop: bool, mayDrop: bool)
    requires Ordered(v) && local < |v|
    ensures var w := Walk(v, local, local, FieldSteps(fields, needDrop, mayDrop)).0;
            AllOnTheWay(w, local, fields, needDrop, mayDrop, |v|, |w|)
  {
    var steps := FieldSteps(fields, needDrop, mayDrop);
    var w := Walk(v, local, local, steps).0;
    WalkStamps(v, local, local, steps);
    forall i | |v| <= i < |w| ensures OnTheWay(w, local, fields, needDrop, mayDrop, i) {
      assert Stamped(w, local, steps, i);
      var k: nat :| StampedAt(w, local, steps, k, i);
      assert steps[..k + 1] == FieldSteps(fields[..k + 1], needDrop, mayDrop);
      FieldStepsPath(fields[..k + 1], needDrop, mayDrop);
      assert LeadsTo(w, local, fields, k, i);
    }
  }

  lemma OnTheWayStays(v: Values, w: Values, id: nat, fields: seq<nat>, needDrop: bool, mayDrop: bool, from: nat,
                      to: nat)
    requires Ordered(v) && Ordered(w) && Extends(v, w) && id < |v|
    requires AllOnTheWay(v, id, fields, needDrop, mayDrop, from, to)
    ensures AllOnTheWay(w, id, fields, needDrop, mayDrop, from, to)
  {
    forall i | from <= i < to ensures OnTheWay(w, id, fields, needDrop, mayDrop, i) {
      assert OnTheWay(v, id, fields, needDrop, mayDrop, i);
      var k: nat :| LeadsTo(v, id, fields, k, i);
      AtExtends(v, w, id, fields[..k + 1]);
      assert LeadsTo(w, id, fields, k, i);
    }
  }

  /** The arena and the two nodes that a pair names over the given arguments. */
  ghost function PairWalk(v: Values, ret: RetAlias, args: seq<nat>): (r: (Values, nat, nat))
    requires Ordered(v) && ret.leftIndex < |args| && ret.rightIndex < |args|
    requires forall i :: 0 <= i < |args| ==> args[i] < |v|
    ensures Ordered(r.0) && |v| <= |r.0| && r.1 < |r.0| && r.2 < |r.0|
  {
    var left, right := args[ret.leftIndex], args[ret.rightIndex];
    var (v1, l) := Walk(v, left, left, FieldSteps(ret.leftFields, ret.leftNeedDrop, ret.leftMayDrop));
    var (v2, r) := Walk(v1, right, right, FieldSteps(ret.rightFields, ret.rightNeedDrop, ret.rightMayDrop));
    (v2, l, r)
  }

  ghost predicate InRange(ret: RetAlias, args: seq<nat>) {
    ret.leftIndex < |args| && ret.rightIndex < |args|
  }

  /** `args` are different locals. */
  ghost predicate DistinctLocals(args: seq<nat>, n: nat) {
    && (forall i :: 0 <= i < |args| ==> args[i] < n)
    && (forall i, j :: 0 <= i < j < |args| ==> args[i] != args[j])
  }

  /** The two caller places of a pair exist and alias. */
  ghost predicate PlacesAlias(v: Values, p: seq<nat>, ret: RetAlias, args: seq<nat>)
    requires Ordered(v) && InRange(ret, args) && forall i :: 0 <= i < |args| ==> args[i] < |v|
  {
    var l, r := At(v, args[ret.leftIndex], ret.leftFields), At(v, args[ret.rightIndex], ret.rightFields);
    l.Some? && r.Some? && Same(p, l.value, r.value)
  }

  lemma PairWalkKeeps(v: Values, ret: RetAlias, args: seq<nat>, n: nat)
    requires Ordered(v) && Trees(v, n) && InRange(ret, args) && DistinctLocals(args, n)
    ensures var (w, l, r) := PairWalk(v, ret, args);
            Trees(w, n) && Extends(v, w)
            && w[l].local == args[ret.leftIndex] && w[r].local == args[ret.rightIndex]
            && At(w, args[ret.leftIndex], ret.leftFields) == Some(l)
            && At(w, args[ret.rightIndex], ret.rightFields) == Some(r)
  {
    FieldStepsPath(ret.leftFields, ret.leftNeedDrop, ret.leftMayDrop);
    FieldStepsPath(ret.rightFields, ret.rightNeedDrop, ret.rightMayDrop);
    var a := Assignment(
      Place(args[ret.leftIndex], FieldSteps(ret.leftFields, ret.leftNeedDrop, ret.leftMayDrop)),
      Place(args[ret.rightIndex], FieldSteps(ret.rightFields, ret.rightNeedDrop, ret.rightMayDrop)), Copy);
    assert PairWalk(v, ret, args) == Resolved(v, a);
    ResolvedKeeps(v, a, n);
  }

  /** The nodes that `merge` adds before it merges lie on the two ways, with the flags of their side. */
  lemma PairWalkAdds(v: Values, ret: RetAlias, args: seq<nat>)
    requires Ordered(v) && InRange(ret, args) && forall i :: 0 <= i < |args| ==> args[i] < |v|
    ensures PairAdds(v, ret, args, PairWalk(v, ret, args).0)
  {
    var left, right := args[ret.leftIndex], args[ret.rightIndex];
    var v1 := Walk(v, left, left, FieldSteps(ret.leftFields, ret.leftNeedDrop, ret.leftMayDrop)).0;
    var steps := FieldSteps(ret.rightFields, ret.rightNeedDrop, ret.rightMayDrop);
    var w := Walk(v1, right, right, steps).0;
    FieldWalkAdds(v, left, ret.leftFields, ret.leftNeedDrop, ret.leftMayDrop);
    FieldWalkAdds(v1, right, ret.rightFields, ret.rightNeedDrop, ret.rightMayDrop);
    WalkReaches(v1, right, right, steps);
    OnTheWayStays(v1, w, left, ret.leftFields, ret.leftNeedDrop, ret.leftMayDrop, |v|, |v1|);
  }

  /** The nodes from `|v|` on lie on the left or the right way of the pair. */
  ghost predicate PairAdds(v: Values, ret: RetAlias, args: seq<nat>, w: Values)
    requires Ordered(w) && InRange(ret, args) && forall i :: 0 <= i < |args| ==> args[i] < |w|
  {
    exists m ::
      && |v| <= m <= |w|
      && AllOnTheWay(w, args[ret.leftIndex], ret.leftFields, ret.leftNeedDrop, ret.leftMayDrop, |v|, m)
      && AllOnTheWay(w, args[ret.rightIndex], ret.rightFields, ret.rightNeedDrop, ret.rightMayDrop, m, |w|)
  }

  lemma PairSeparates(v: Values, p: seq<nat>, ret: RetAlias, args: seq<nat>, n: nat)
    requires ArenaInv(v, p, n) && InRange(ret, args) && DistinctLocals(args, n) && ret.leftIndex != ret.rightIndex
    ensures var (w, l, r) := PairWalk(v, ret, args);
            ArenaInv(w, Grown(p, |w|), n) && Desc(w, l) !! Desc(w, r)
  {
    var (w, l, r) := PairWalk(v, ret, args);
    PairWalkKeeps(v, ret, args, n);
    GrownAcyclic(p, |w|);
    GuardSeparates(w, l, r);
  }

  /** What replaying one pair does. */
  ghost predicate Replayed(v: Values, p: seq<nat>, ret: RetAlias, args: seq<nat>, w: Values, q: seq<nat>)
    requires Ordered(v) && |p| == |v| && InRange(ret, args) && forall i :: 0 <= i < |args| ==> args[i] < |v|
  {
    var (v', l, r) := PairWalk(v, ret, args);
    Ordered(w) && Framed(v', w, Desc(v', l)) && Merged(v', Grown(p, |v'|), w, q, l, r)
  }

  lemma ReplayedAliases(v: Values, p: seq<nat>, ret: RetAlias, args: seq<nat>, w: Values, q: seq<nat>, n: nat)
    requires ArenaInv(v, p, n) && InRange(ret, args) && DistinctLocals(args, n) && ret.leftIndex != ret.rightIndex
    requires Replayed(v, p, ret, args, w, q)
    ensures Extends(v, w) && PlacesAlias(w, q, ret, args) && Coarser(p, q)
  {
    var (v', l, r) := PairWalk(v, ret, args);
    var p' := Grown(p, |v'|);
    PairWalkKeeps(v, ret, args, n);
    GrownAcyclic(p, |v'|);
    GuardSeparates(v', l, r);
    ExtendsTrans(v, v', w);
    AtExtends(v', w, args[ret.leftIndex], ret.leftFields);
    AtExtends(v', w, args[ret.rightIndex], ret.rightFields);
    MergedAliases(v', p', w, q, l, r, []);
    forall x, y | Same(p, x, y) ensures Same(q, x, y) {
      assert Same(p', x, y);
      MergedKeeps(v', p', w, q, l, r, x, y);
    }
  }

  /** Pairs that alias keep aliasing while the arena and the partition only grow. */
  lemma PlacesStay(v: Values, p: seq<nat>, w: Values, q: seq<nat>, ret: RetAlias, args: seq<nat>)
    requires Ordered(v) && Ordered(w) && Extends(v, w) && InRange(ret, args)
    requires forall i :: 0 <= i < |args| ==> args[i] < |v|
    requires PlacesAlias(v, p, ret, args) && Coarser(p, q)
    ensures PlacesAlias(w, q, ret, args)
  {
    AtExtends(v, w, args[ret.leftIndex], ret.leftFields);
    AtExtends(v, w, args[ret.rightIndex], ret.rightFields);
  }

  // ---------------------------------------------------------------- histories

  /** Whatever aliased still does. */
  ghost predicate Coarser(p: seq<nat>, q: seq<nat>) {
    forall x, y :: Same(p, x, y) ==> Same(q, x, y)
  }

  /** From `s` to `t` by one assignment. */
  ghost predicate AssignStep(s: Snapshot, a: Assignment, t: Snapshot, outcome: Outcome, n: nat) {
    && ArenaInv(s.values, s.aliasSet, n) && a.lv.local < n && a.rv.local < n
    && Assigned(s.values, s.aliasSet, a, t.values, t.aliasSet, outcome) && Extends(s.values, t.values)
  }

  /** The states passed by assignments that complete, from `s` to `t`. */
  ghost predicate AssignTrace(s: Snapshot, trace: seq<Snapshot>, assignments: seq<Assignment>, t: Snapshot, n: nat)
    decreases |assignments|
  {
    |trace| == |assignments| &&
    if assignments == [] then s == t
    else
      var k := |assignments| - 1;
      AssignTrace(s, trace[..k], assignments[..k], trace[k], n) && AssignStep(trace[k], assignments[k], t, Completed, n)
  }

  lemma TracePush(s: Snapshot, trace: seq<Snapshot>, assignments: seq<Assignment>, k: nat, mid: Snapshot, t: Snapshot,
                  n: nat)
    requires k < |assignments| && AssignTrace(s, trace, assignments[..k], mid, n)
    requires AssignStep(mid, assignments[k], t, Completed, n)
    ensures AssignTrace(s, trace + [mid], assignments[..k + 1], t, n)
  {
    var longer, done := trace + [mid], assignments[..k + 1];
    assert |longer| == |done| == k + 1;
    assert longer[..k] == trace && done[..k] == assignments[..k] && longer[k] == mid && done[k] == assignments[k];
  }

  lemma {:induction false} TraceGrows(s: Snapshot, trace: seq<Snapshot>, assignments: seq<Assignment>, t: Snapshot,
                                      n: nat)
    requires AssignTrace(s, trace, assignments, t, n)
    ensures Extends(s.values, t.values)
    ensures (forall i :: 0 <= i < |assignments| ==> !assignments[i].atype.Variant?) ==> Coarser(s.aliasSet, t.aliasSet)
    decreases |assignments|
  {
    if assignments != [] {
      var k := |assignments| - 1;
      var mid := trace[k];
      TraceGrows(s, trace[..k], assignments[..k], mid, n);
      ExtendsTrans(s.values, mid.values, t.values);
      if forall i :: 0 <= i < |assignments| ==> !assignments[i].atype.Variant? {
        forall x, y | Same(mid.aliasSet, x, y) ensures Same(t.aliasSet, x, y) {
          AssignmentCoarsens(mid.values, mid.aliasSet, assignments[k], t.values, t.aliasSet, Completed, x, y);
        }
      }
    }
  }

  /** From `s` to `t` by one pair of a summary; pairs without value or out of range do nothing. */
  ghost predicate ReplayStep(s: Snapshot, ret: RetAlias, args: seq<nat>, t: Snapshot, n: nat) {
    && ArenaInv(s.values, s.aliasSet, n) && DistinctLocals(args, n) && ret.leftIndex != ret.rightIndex
    && (if ret.leftMayDrop && ret.rightMayDrop && InRange(ret, args)
        then Replayed(s.values, s.aliasSet, ret, args, t.values, t.aliasSet)
        else t == s)
  }

  /** The states passed by the pairs in the given order, from `s` to `t`. */
  ghost predicate ReplayTrace(s: Snapshot, trace: seq<Snapshot>, order: seq<RetAlias>, args: seq<nat>, t: Snapshot,
                              n: nat)
    decreases |order|
  {
    |trace| == |order| &&
    if order == [] then s == t
    else
      var k := |order| - 1;
      ReplayTrace(s, trace[..k], order[..k], args, trace[k], n) && ReplayStep(trace[k], order[k], args, t, n)
  }

  lemma ReplayPush(s: Snapshot, trace: seq<Snapshot>, order: seq<RetAlias>, args: seq<nat>, mid: Snapshot,
                   ret: RetAlias,
                   t: Snapshot, n: nat)
    requires ReplayTrace(s, trace, order, args, mid, n) && ReplayStep(mid, ret, args, t, n)
    ensures ReplayTrace(s, trace + [mid], order + [ret], args, t, n)
  {
    var k := |order|;
    assert (trace + [mid])[..k] == trace && (order + [ret])[..k] == order;
  }

  lemma ReplayStepKeeps(s: Snapshot, ret: RetAlias, args: seq<nat>, t: Snapshot, n: nat)
    requires ReplayStep(s, ret, args, t, n)
    ensures Extends(s.values, t.values) && Coarser(s.aliasSet, t.aliasSet)
    ensures ret.leftMayDrop && ret.rightMayDrop && InRange(ret, args) ==> PlacesAlias(t.values, t.aliasSet, ret, args)
  {
    if ret.leftMayDrop && ret.rightMayDrop && InRange(ret, args) {
      ReplayedAliases(s.values, s.aliasSet, ret, args, t.values, t.aliasSet, n);
    }
  }

  /** No later merge undoes an earlier one. */
  lemma {:induction false} ReplayAliases(s: Snapshot, trace: seq<Snapshot>, order: seq<RetAlias>, args: seq<nat>,
                                         t: Snapshot, n: nat)
    requires ReplayTrace(s, trace, order, args, t, n) && Ordered(t.values)
    ensures Extends(s.values, t.values) && Coarser(s.aliasSet, t.aliasSet)
    ensures forall ret :: ret in order && ret.leftMayDrop && ret.rightMayDrop && InRange(ret, args) ==>
              PlacesAlias(t.values, t.aliasSet, ret, args)
    decreases |order|
  {
    if order != [] {
      var k := |order| - 1;
      var mid := trace[k];
      ReplayAliases(s, trace[..k], order[..k], args, mid, n);
      ReplayStepKeeps(mid, order[k], args, t, n);
      ExtendsTrans(s.values, mid.values, t.values);
      forall ret | ret in order && ret.leftMayDrop && ret.rightMayDrop && InRange(ret, args)
        ensures PlacesAlias(t.values, t.aliasSet, ret, args)
      {
        if ret != order[k] {
          assert ret in order[..k];
          PlacesStay(mid.values, mid.aliasSet, t.values, t.aliasSet, ret, args);
        }
      }
    }
  }

  /** `s` and `id` are where the first `k` steps from local `init` lead. */
  ghost predicate Walked(v: Values, p: seq<nat>, init: nat, steps: seq<Proj>, k: nat, s: Snapshot, id: nat) {
    && Ordered(v) && init < |v| && |p| == |v| && k <= |steps|
    && (s.values, id) == Walk(v, init, init, steps[..k]) && s.aliasSet == Grown(p, |s.values|)
  }

  lemma WalkedKeeps(v: Values, p: seq<nat>, init: nat, steps: seq<Proj>, k: nat, s: Snapshot, id: nat, n: nat)
    requires Walked(v, p, init, steps, k, s, id) && ArenaInv(v, p, n) && init < n
    ensures Ordered(s.values) && |s.aliasSet| == |s.values| && Acyclic(s.aliasSet)
    ensures id < |s.values| && s.values[id].local == init
  {
    WalkKeepsArena(v, p, init, steps[..k], n);
  }

  lemma WalkedNext(v: Values, p: seq<nat>, init: nat, steps: seq<Proj>, k: nat, s: Snapshot, id: nat, t: Snapshot,
                   id': nat)
    requires Walked(v, p, init, steps, k, s, id) && k < |steps| && Ordered(s.values) && id < |s.values|
    requires (t.values, id') == Walk(s.values, init, id, [steps[k]]) && t.aliasSet == Grown(s.aliasSet, |t.values|)
    ensures Walked(v, p, init, steps, k + 1, t, id')
  {
    WalkNext(v, init, steps, k);
    GrownTwice(p, |s.values|, |t.values|);
  }

  /** A fresh arena of `n` locals. */
  function Locals(n: nat): (v: Values) {
    seq(n, i requires 0 <= i < n => ValueNode(i, i, true, true, Adt, i, None, map[]))
  }

  lemma FreshArena(n: nat, p: seq<nat>)
    requires |p| == n && Acyclic(p)
    ensures ArenaInv(Locals(n), p, n)
  {
  }

  lemma FreshFrame(l: nat)
    requires l < 2
    ensures Ordered(Locals(2)) && Framed(Locals(2), Locals(2), Desc(Locals(2), l))
  {
    DescClosed(Locals(2), l);
    FramedSelf(Locals(2), Desc(Locals(2), l));
  }

  /** Copying a fresh local 0 to a fresh local 1 makes 0 the root of both. */
  lemma FreshCopy()
    ensures Acyclic([0, 1]) && Acyclic([0, 0]) && Ordered(Locals(2))
    ensures Merged(Locals(2), [0, 1], Locals(2), [0, 0], 1, 0)
  {
    var v, p, q: seq<nat> := Locals(2), [0, 1], [0, 0];
    FlatIsAcyclic(p);
    FlatIsAcyclic(q);
    StartMerging(v, p, q, 1, 0);
    AccountedAll(v, p, v, q, 1, 0);
  }

  lemma FreshCopyStep(copy: Assignment)
    requires copy == Assignment(Place(1, []), Place(0, []), Copy)
    ensures AssignStep(Snapshot(Locals(2), [0, 1]), copy, Snapshot(Locals(2), [0, 0]), Completed, 2)
  {
    FreshCopy();
    FreshFrame(1);
    FreshArena(2, [0, 1]);
    assert Resolved(Locals(2), copy) == (Locals(2), 1, 0);
    var p: seq<nat> := [0, 1];
    assert Grown(p, 2) == p;
  }

  lemma LoopingStep(link: Assignment)
    requires link == Assignment(Place(0, [Deref]), Place(1, []), Variant)
    ensures AssignStep(Snapshot(Locals(2), [0, 0]), link, Snapshot(Locals(2), [1, 0]), LoopingLink, 2)
  {
    var q: seq<nat> := [0, 0];
    FlatIsAcyclic(q);
    FreshArena(2, q);
    assert [Deref][1..] == [];
    assert Resolved(Locals(2), link) == (Locals(2), 0, 1);
    assert Grown(q, 2) == q;
    FlatLink(q, 0, 1);
    assert q[0 := 1] == [1, 0];
  }

  /** A looping link within two assignments of a fresh arena: local 0, a reference to an integer, is
      wrapped into the enum in local 1, recorded as a copy that makes 0 the root of both; then the
      discriminant of local 1 is stored through the reference. */
  lemma LoopingLinkReached()
    ensures var v := Locals(2);
            && AssignStep(Snapshot(v, [0, 1]), Assignment(Place(1, []), Place(0, []), Copy), Snapshot(v, [0, 0]),
                          Completed, 2)
            && AssignStep(Snapshot(v, [0, 0]), Assignment(Place(0, [Deref]), Place(1, []), Variant),
                          Snapshot(v, [1, 0]), LoopingLink, 2)
  {
    FreshCopyStep(Assignment(Place(1, []), Place(0, []), Copy));
    LoopingStep(Assignment(Place(0, [Deref]), Place(1, []), Variant));
  }

  class Graph {
    var values: Values
    var aliasSet: seq<nat>
    var constant: map<nat, nat>

    /** `projection` of the MoP analysis. Its Deref step and its right-hand redirection go
        through `index`, which is always the node itself, so both walks are the same. */
    method Projection(isRight: bool, place: Place) returns (id: nat)
      requires Ordered(values) && |aliasSet| == |values| && place.local < |values|
      modifies this`values, this`aliasSet
      ensures Ordered(values)
      ensures values == Walk(old(values), place.local, place.local, place.projection).0
      ensures id == Walk(old(values), place.local, place.local, place.projection).1
      ensures aliasSet == Grown(old(aliasSet), |values|)
      ensures AllStamped(values, place.local, place.projection, |old(values)|)
    {
      WalkStamps(values, place.local, place.local, place.projection);
      var local := place.local;
      id := local;
      var k := 0;
      while k < |place.projection|
        invariant 0 <= k <= |place.projection| && Ordered(values) && id < |values| && local == place.local
        invariant |old(values)| <= |values|
        invariant aliasSet == Grown(old(aliasSet), |values|)
        invariant Walk(old(values), local, local, place.projection) == Walk(values, local, id, place.projection[k..])
      {
        ghost var before := values;
        ghost var rest := place.projection[k..];
        assert rest[0] == place.projection[k] && rest[1..] == place.projection[k + 1..];
        match place.projection[k] {
        case Deref =>
          id := values[id].index;
        case Field(f, needDrop, mayDrop, kind) =>
          if isRight && values[id].index != id {
            assert false;  // the redirection through `index` is never taken
          }
          if f !in values[id].fields {
            var node := NewNode(|values|, local, needDrop, mayDrop, kind, f);
            AddFieldOrdered(values, id, f, node);
            GrownStep(old(aliasSet), |values|);
            aliasSet := aliasSet + [|values|];
            values := AddField(values, id, f, node);
          }
          id := values[id].fields[f];
        case OtherProj =>
        }
        k := k + 1;
      }
    }

    /** `merge_alias`: unites `lv` and `rv` and, field by field in any order, their trees. It ends
        because `fuel` bounds the depth of the recursion; such a bound exists exactly when `lv` is
        not strictly below `rv`. On disjoint trees the result is the least merge. */
    method MergeAlias(lv: nat, rv: nat, ghost fuel: nat) returns (ghost run: Merging)
      requires Sound(Snapshot(values, aliasSet)) && Ends(values, lv, rv, fuel)
      modifies this`values, this`aliasSet
      ensures run.l == lv && run.r == rv && Runs(run, old(Snapshot(values, aliasSet)), Snapshot(values, aliasSet))
      ensures Grew(old(Snapshot(values, aliasSet)), Snapshot(values, aliasSet))
      ensures old(Disjoint(values, lv, rv)) ==> Framed(old(values), values, old(Desc(values, lv)))
      ensures old(Disjoint(values, lv, rv)) ==> Merged(old(values), old(aliasSet), values, aliasSet, lv, rv)
      decreases fuel, 2
    {
      ghost var s := Snapshot(values, aliasSet);
      run := MergeFrom(lv, rv, fuel);
      RunGrew(run, s, Snapshot(values, aliasSet));
      if Disjoint(s.values, lv, rv) {
        RunMerges(run, s, Snapshot(values, aliasSet));
      }
    }

    /** The union and the field loop. */
    method MergeFrom(lv: nat, rv: nat, ghost fuel: nat) returns (ghost run: Merging)
      requires Sound(Snapshot(values, aliasSet)) && Ends(values, lv, rv, fuel)
      modifies this`values, this`aliasSet
      ensures run.l == lv && run.r == rv && Runs(run, old(Snapshot(values, aliasSet)), Snapshot(values, aliasSet))
      decreases fuel, 1
    {
      ghost var s := Snapshot(values, aliasSet);
      BuildStart(s, lv, rv, fuel);
      aliasSet := UnionMerge(aliasSet, lv, rv);
      ghost var start := Snapshot(s.values, United(s.aliasSet, lv, rv));
      assert Snapshot(values, aliasSet) == start;
      var fields := values[rv].fields;
      var todo := fields.Keys;
      run := Merging(lv, rv, []);
      while todo != {}
        invariant run.l == lv && run.r == rv
        invariant Building(run, start, Snapshot(values, aliasSet), fields.Keys, todo, fuel)
        decreases todo
      {
        var f :| f in todo;
        ghost var u := Snapshot(values, aliasSet);
        NestedStart(run, start, u, fields.Keys, todo, fuel, f);
        ghost var nested := MergeField(lv, rv, f, fuel);
        BuildOn(run, start, u, Snapshot(values, aliasSet), fields.Keys, todo, fuel, f, nested);
        run, todo := run.(fields := run.fields + [(f, nested)]), todo - {f};
      }
      BuildEnd(run, s, Snapshot(values, aliasSet), fields.Keys, fuel);
    }

    /** One round of the field loop. */
    method MergeField(lv: nat, rv: nat, f: nat, ghost fuel: nat) returns (ghost nested: Merging)
      requires CanCall(lv, rv, f, Snapshot(values, aliasSet), fuel)
      modifies this`values, this`aliasSet
      ensures Calls(lv, rv, f, nested, old(Snapshot(values, aliasSet)))
      ensures Runs(nested, WithField(old(Snapshot(values, aliasSet)), lv, rv, f), Snapshot(values, aliasSet))
      decreases fuel, 0
    {
      ghost var s := Snapshot(values, aliasSet);
      var child := values[rv].fields[f];
      AddMissingField(lv, rv, f);
      assert NestedLeft(lv, rv, f, s) == values[lv].fields[f];
      nested := MergeFrom(values[lv].fields[f], child, fuel - 1);
    }

    /** Gives `lv` a fresh, unaliased field that copies the type facts of `rv`'s, unless it has one. */
    method AddMissingField(lv: nat, rv: nat, f: nat)
      requires Sound(Snapshot(values, aliasSet)) && lv < |values| && rv < |values| && f in values[rv].fields
      modifies this`values, this`aliasSet
      ensures Snapshot(values, aliasSet) == WithField(old(Snapshot(values, aliasSet)), lv, rv, f)
    {
      if f !in values[lv].fields {
        var node := Copied(values, lv, values[rv].fields[f], f);
        aliasSet := aliasSet + [|values|];
        values := AddField(values, lv, f, node);
      }
    }

    /** One round of `alias_bb`. The source does not look for a looping link; it would hang
        in the next search that meets it. */
    method Assign(a: Assignment, ghost n: nat) returns (outcome: Outcome)
      requires ArenaInv(values, aliasSet, n) && a.lv.local < n && a.rv.local < n
      modifies this`values, this`aliasSet
      ensures Assigned(old(values), old(aliasSet), a, values, aliasSet, outcome)
      ensures Extends(old(values), values)
      ensures outcome.Completed? ==> ArenaInv(values, aliasSet, n)
    {
      ghost var v := values;
      var l, r := Resolve(a, n);
      if a.atype.Variant? {
        var loops := SearchPasses(aliasSet, r, l);
        LinkAcyclic(aliasSet, l, r);
        aliasSet := aliasSet[l := r];
        outcome := if l == r || !loops then Completed else LoopingLink;
        return;
      }
      if a.atype.InitBox? {
        if 0 !in values[l].fields {
          return NoBoxField;
        }
        l := values[l].fields[0];
      }
      ghost var v' := values;
      MergeGuarded(l, r, n);
      ExtendsTrans(v, v', values);
      outcome := Completed;
    }

    /** The two places of an assignment. */
    method Resolve(a: Assignment, ghost n: nat) returns (l: nat, r: nat)
      requires ArenaInv(values, aliasSet, n) && a.lv.local < n && a.rv.local < n
      modifies this`values, this`aliasSet
      ensures (values, l, r) == Resolved(old(values), a) && aliasSet == Grown(old(aliasSet), |values|)
      ensures ArenaInv(values, aliasSet, n) && l < |values| && r < |values| && Extends(old(values), values)
    {
      ghost var p := aliasSet;
      ResolvedArena(values, aliasSet, a, n);
      l := Projection(false, a.lv);
      ghost var m := |values|;
      r := Projection(true, a.rv);
      GrownTwice(p, m, |values|);
    }

    /** The merge of an assignment, for nodes of different locals only. */
    method MergeGuarded(l: nat, r: nat, ghost n: nat)
      requires ArenaInv(values, aliasSet, n) && l < |values| && r < |values|
      modifies this`values, this`aliasSet
      ensures ArenaInv(values, aliasSet, n) && Extends(old(values), values)
      ensures GuardedMerge(old(values), old(aliasSet), l, r, values, aliasSet)
    {
      if values[l].local != values[r].local {
        GuardSeparates(values, l, r);
        DisjointEnds(values, l, r);
        ghost var run := MergeAlias(l, r, |values|);
      }
    }

    /** `alias_bb`: records the block's constants and runs its assignments in order, up to the
        first that does not complete. Every state it passes, listed in `trace`, is an arena in
        step with its parents. */
    method AliasBlock(constValues: seq<(nat, nat)>, assignments: seq<Assignment>, ghost n: nat)
      returns (outcome: Outcome, ghost trace: seq<Snapshot>, ghost last: Snapshot)
      requires ArenaInv(values, aliasSet, n)
      requires forall i :: 0 <= i < |assignments| ==> assignments[i].lv.local < n && assignments[i].rv.local < n
      modifies this
      ensures constant == InsertAll(old(constant), constValues)
      ensures |trace| <= |assignments|
      ensures AssignTrace(old(Snapshot(values, aliasSet)), trace, assignments[..|trace|], last, n)
      ensures if outcome.Completed? then |trace| == |assignments| && last == Snapshot(values, aliasSet)
              else |trace| < |assignments|
                   && AssignStep(last, assignments[|trace|], Snapshot(values, aliasSet), outcome, n)
      ensures Extends(old(values), values)
      ensures outcome.Completed? ==> ArenaInv(values, aliasSet, n)
      ensures outcome.Completed? && (forall i :: 0 <= i < |assignments| ==> !assignments[i].atype.Variant?) ==>
                Coarser(old(aliasSet), aliasSet)
    {
      RecordConstants(constValues);
      ghost var first := Snapshot(values, aliasSet);
      outcome, trace, last := RunAssignments(assignments, n);
      TraceGrows(first, trace, assignments[..|trace|], last, n);
      if outcome.Completed? {
        assert assignments[..|trace|] == assignments;
      } else {
        ExtendsTrans(first.values, last.values, values);
      }
    }

    /** The assignments in order, up to the first that does not complete. */
    method RunAssignments(assignments: seq<Assignment>, ghost n: nat)
      returns (outcome: Outcome, ghost trace: seq<Snapshot>, ghost last: Snapshot)
      requires ArenaInv(values, aliasSet, n)
      requires forall i :: 0 <= i < |assignments| ==> assignments[i].lv.local < n && assignments[i].rv.local < n
      modifies this`values, this`aliasSet
      ensures |trace| <= |assignments|
      ensures AssignTrace(old(Snapshot(values, aliasSet)), trace, assignments[..|trace|], last, n)
      ensures if outcome.Completed? then |trace| == |assignments| && last == Snapshot(values, aliasSet)
              else |trace| < |assignments|
                   && AssignStep(last, assignments[|trace|], Snapshot(values, aliasSet), outcome, n)
      ensures outcome.Completed? ==> ArenaInv(values, aliasSet, n)
    {
      ghost var first := Snapshot(values, aliasSet);
      var k := 0;
      trace, last := [], first;
      while k < |assignments|
        invariant 0 <= k <= |assignments| && |trace| == k
        invariant last == Snapshot(values, aliasSet) && ArenaInv(values, aliasSet, n)
        invariant AssignTrace(first, trace, assignments[..k], last, n)
      {
        outcome := AssignNext(assignments, k, first, trace, n);
        if !outcome.Completed? {
          return;
        }
        trace, last := trace + [last], Snapshot(values, aliasSet);
        k := k + 1;
      }
      outcome := Completed;
    }

    method AssignOne(a: Assignment, ghost n: nat) returns (outcome: Outcome)
      requires ArenaInv(values, aliasSet, n) && a.lv.local < n && a.rv.local < n
      modifies this`values, this`aliasSet
      ensures outcome.Completed? ==> ArenaInv(values, aliasSet, n)
      ensures AssignStep(old(Snapshot(values, aliasSet)), a, Snapshot(values, aliasSet), outcome, n)
    {
      outcome := Assign(a, n);
    }

    /** One assignment, extending the trace. */
    method AssignNext(assignments: seq<Assignment>, k: nat, ghost first: Snapshot, ghost trace: seq<Snapshot>,
                      ghost n: nat)
      returns (outcome: Outcome)
      requires ArenaInv(values, aliasSet, n) && k < |assignments|
      requires assignments[k].lv.local < n && assignments[k].rv.local < n
      requires AssignTrace(first, trace, assignments[..k], Snapshot(values, aliasSet), n)
      modifies this`values, this`aliasSet
      ensures outcome.Completed? ==> ArenaInv(values, aliasSet, n)
      ensures if outcome.Completed?
              then AssignTrace(first, trace + [old(Snapshot(values, aliasSet))], assignments[..k + 1],
                               Snapshot(values, aliasSet), n)
              else AssignStep(old(Snapshot(values, aliasSet)), assignments[k], Snapshot(values, aliasSet), outcome, n)
    {
      ghost var last := Snapshot(values, aliasSet);
      outcome := AssignOne(assignments[k], n);
      if outcome.Completed? {
        TracePush(first, trace, assignments, k, last, Snapshot(values, aliasSet), n);
      }
    }

    method RecordConstants(constValues: seq<(nat, nat)>)
      modifies this`constant
      ensures constant == InsertAll(old(constant), constValues)
    {
      var k := 0;
      while k < |constValues|
        invariant 0 <= k <= |constValues|
        invariant InsertAll(old(constant), constValues) == InsertAll(constant, constValues[k..])
      {
        assert constValues[k..][0] == constValues[k] && constValues[k..][1..] == constValues[k + 1..];
        constant := constant[constValues[k].0 := constValues[k].1];
        k := k + 1;
      }
    }

    /** The two field loops of `merge`. On the right (`relocate`) the local is re-read from
        the current node, under a test that always holds. */
    method FollowFields(init: nat, fields: seq<nat>, needDrop: bool, mayDrop: bool, relocate: bool, ghost n: nat)
      returns (id: nat)
      requires ArenaInv(values, aliasSet, n) && init < n
      modifies this`values, this`aliasSet
      ensures (values, id) == Walk(old(values), init, init, FieldSteps(fields, needDrop, mayDrop))
      ensures aliasSet == Grown(old(aliasSet), |values|)
      ensures AllOnTheWay(values, init, fields, needDrop, mayDrop, |old(values)|, |values|)
    {
      FieldWalkAdds(values, init, fields, needDrop, mayDrop);
      ghost var v0, p0, steps := values, aliasSet, FieldSteps(fields, needDrop, mayDrop);
      var local := init;
      id := init;
      var k := 0;
      assert steps[..0] == [];
      while k < |fields|
        invariant 0 <= k <= |fields| && local == init
        invariant Walked(v0, p0, init, steps, k, Snapshot(values, aliasSet), id)
      {
        WalkedKeeps(v0, p0, init, steps, k, Snapshot(values, aliasSet), id, n);
        if relocate {
          local := Relocated(id, local);
        }
        ghost var s := Snapshot(values, aliasSet);
        ghost var at := id;
        id := StepField(id, local, fields[k], needDrop, mayDrop);
        WalkedNext(v0, p0, init, steps, k, s, at, Snapshot(values, aliasSet), id);
        k := k + 1;
      }
      assert steps[..k] == steps;
    }

    method Relocated(id: nat, local: nat) returns (now: nat)
      requires |aliasSet| == |values| && Acyclic(aliasSet) && id < |values|
      ensures now == local || now == values[id].local
    {
      now := local;
      var same := UnionIsSame(aliasSet, id, aliasSet[id]);
      if same {
        now := values[id].local;
      }
    }

    /** One round: the field's node, created when it is missing. */
    method StepField(id: nat, local: nat, f: nat, needDrop: bool, mayDrop: bool) returns (child: nat)
      requires Ordered(values) && |aliasSet| == |values| && id < |values|
      modifies this`values, this`aliasSet
      ensures (values, child) == Walk(old(values), local, id, [Field(f, needDrop, mayDrop, RawPtr)])
      ensures aliasSet == Grown(old(aliasSet), |values|)
    {
      assert [Field(f, needDrop, mayDrop, RawPtr)][1..] == [];
      if f !in values[id].fields {
        var node := NewNode(|values|, local, needDrop, mayDrop, RawPtr, f);
        AddFieldOrdered(values, id, f, node);
        aliasSet := aliasSet + [|values|];
        values := AddField(values, id, f, node);
      }
      child := values[id].fields[f];
    }

    /** `merge`: replays one pair of a callee's summary over the caller's arguments. */
    method Merge(ret: RetAlias, args: seq<nat>, ghost n: nat)
      requires ArenaInv(values, aliasSet, n) && DistinctLocals(args, n) && ret.leftIndex != ret.rightIndex
      modifies this`values, this`aliasSet
      ensures ArenaInv(values, aliasSet, n)
      ensures if InRange(ret, args)
              then Replayed(old(values), old(aliasSet), ret, args, values, aliasSet)
              else values == old(values) && aliasSet == old(aliasSet)
    {
      if ret.leftIndex >= |args| || ret.rightIndex >= |args| {
        return;
      }
      var l, r := FollowPair(ret, args, n);
      DisjointEnds(values, l, r);
      ghost var run := MergeAlias(l, r, |values|);
    }

    method FollowPair(ret: RetAlias, args: seq<nat>, ghost n: nat) returns (l: nat, r: nat)
      requires ArenaInv(values, aliasSet, n) && DistinctLocals(args, n) && ret.leftIndex != ret.rightIndex
      requires InRange(ret, args)
      modifies this`values, this`aliasSet
      ensures (values, l, r) == PairWalk(old(values), ret, args)
      ensures PairAdds(old(values), ret, args, values)
      ensures aliasSet == Grown(old(aliasSet), |values|) && ArenaInv(values, aliasSet, n)
      ensures Desc(values, l) !! Desc(values, r)
    {
      ghost var v, p := values, aliasSet;
      PairWalkAdds(v, ret, args);
      ghost var left := FieldSteps(ret.leftFields, ret.leftNeedDrop, ret.leftMayDrop);
      WalkKeepsArena(v, p, args[ret.leftIndex], left, n);
      l := FollowFields(args[ret.leftIndex], ret.leftFields, ret.leftNeedDrop, ret.leftMayDrop, false, n);
      ghost var m := |values|;
      r := FollowFields(args[ret.rightIndex], ret.rightFields, ret.rightNeedDrop, ret.rightMayDrop, true, n);
      GrownTwice(p, m, |values|);
      PairSeparates(v, p, ret, args, n);
    }

    /** One round of the replay loop. */
    method ReplayPair(ret: RetAlias, args: seq<nat>, ghost n: nat)
      requires ArenaInv(values, aliasSet, n) && DistinctLocals(args, n) && ret.leftIndex != ret.rightIndex
      modifies this`values, this`aliasSet
      ensures ArenaInv(values, aliasSet, n)
      ensures ReplayStep(old(Snapshot(values, aliasSet)), ret, args, Snapshot(values, aliasSet), n)
    {
      if ret.Valuable() {
        Merge(ret, args, n);
      }
    }

    /** Replaying a summary takes each pair once; afterwards every valuable pair's places alias,
        and nothing that aliased before is separated. */
    method ReplaySummary(summary: set<RetAlias>, args: seq<nat>, ghost n: nat)
      returns (ghost order: seq<RetAlias>, ghost trace: seq<Snapshot>)
      requires ArenaInv(values, aliasSet, n) && DistinctLocals(args, n)
      requires forall ret :: ret in summary ==> ret.leftIndex != ret.rightIndex
      modifies this`values, this`aliasSet
      ensures ArenaInv(values, aliasSet, n) && Extends(old(values), values)
      ensures |order| == |summary| && forall ret :: ret in summary <==> ret in order
      ensures ReplayTrace(old(Snapshot(values, aliasSet)), trace, order, args, Snapshot(values, aliasSet), n)
      ensures forall ret :: ret in summary && ret.leftMayDrop && ret.rightMayDrop && InRange(ret, args) ==>
                PlacesAlias(values, aliasSet, ret, args)
      ensures Coarser(old(aliasSet), aliasSet)
    {
      ghost var first := Snapshot(values, aliasSet);
      order, trace := ReplayAll(summary, args, n);
      ReplayAliases(first, trace, order, args, Snapshot(values, aliasSet), n);
    }

    /** The replay loop of `alias_bbcall`, in any order of the summary set. */
    method ReplayAll(summary: set<RetAlias>, args: seq<nat>, ghost n: nat)
      returns (ghost order: seq<RetAlias>, ghost trace: seq<Snapshot>)
      requires ArenaInv(values, aliasSet, n) && DistinctLocals(args, n)
      requires forall ret :: ret in summary ==> ret.leftIndex != ret.rightIndex
      modifies this`values, this`aliasSet
      ensures ArenaInv(values, aliasSet, n)
      ensures |order| == |summary| && forall ret :: ret in summary <==> ret in order
      ensures ReplayTrace(old(Snapshot(values, aliasSet)), trace, order, args, Snapshot(values, aliasSet), n)
    {
      var todo := summary;
      ghost var first := Snapshot(values, aliasSet);
      order, trace := [], [];
      while todo != {}
        invariant todo <= summary && ArenaInv(values, aliasSet, n)
        invariant |order| + |todo| == |summary| && forall ret :: ret in summary <==> ret in order || ret in todo
        invariant ReplayTrace(first, trace, order, args, Snapshot(values, aliasSet), n)
        decreases todo
      {
        var ret :| ret in todo;
        todo := todo - {ret};
        ghost var mid := Snapshot(values, aliasSet);
        ReplayPair(ret, args, n);
        ReplayPush(first, trace, order, args, mid, ret, Snapshot(values, aliasSet), n);
        order, trace := order + [ret], trace + [mid];
      }
    }
  }
}
