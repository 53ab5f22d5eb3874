/** Interprocedural summaries: what `merge_results` extracts from a callee's leaf state and
    what replaying it gives the caller. */
module Summary {
  import opened Wrappers
  import opened UnionFind
  import opened Arena
  import opened AliasGraph
  import MergeTrees

  /** The field sequence recorded for a node: never more than one field. */
  function FieldSeq(node: ValueNode): (s: seq<nat>) {
    if node.fieldId.Some? then [node.fieldId.value] else []
  }

  /** `get_field_seq`; `None` stands for a loop that never ends. The second node it looks at is
      always `values[value.father]`, and so are all later ones. */
  method GetFieldSeq(v: Values, value: ValueNode) returns (s: Option<seq<nat>>)
    requires value.fieldId.Some? ==> value.father < |v|
    ensures s == if value.fieldId.Some? && v[value.father].fieldId.Some? then None else Some(FieldSeq(value))
  {
    if value.fieldId.Some? && v[value.father].fieldId.Some? {
      return None;
    }
    var ids, node := [], value;
    while node.fieldId.Some?
      invariant (node == value && ids == []) || (node.fieldId == None && ids == FieldSeq(value))
      decreases if node.fieldId.Some? then 1 else 0
    {
      ids := ids + [node.fieldId.value];
      node := v[value.father];
    }
    s := Some(ids);
  }

  /** The node `get_field_seq` holds after `k` rounds: each round looks up the same father. */
  ghost function HeldAfter(v: Values, value: ValueNode, k: nat): ValueNode
    requires value.father < |v|
  {
    if k == 0 then value
    else
      var held := HeldAfter(v, value, k - 1);
      if held.fieldId == None then held else v[value.father]
  }

  /** The loop guard fails at some round exactly when the node or its father has no field number;
      otherwise the search never ends. Under the arena invariant fathers are locals, so there
      it always ends. */
  lemma FieldSeqEndsIff(v: Values, value: ValueNode)
    requires value.father < |v|
    ensures (exists k: nat :: HeldAfter(v, value, k).fieldId == None)
            <==> value.fieldId == None || v[value.father].fieldId == None
  {
    if value.fieldId == None {
      assert HeldAfter(v, value, 0).fieldId == None;
    } else if v[value.father].fieldId == None {
      assert HeldAfter(v, value, 1).fieldId == None;
    } else {
      forall k: nat ensures HeldAfter(v, value, k).fieldId.Some? {
        NeverEnds(v, value, k);
      }
    }
  }

  lemma {:induction false} NeverEnds(v: Values, value: ValueNode, k: nat)
    requires value.father < |v| && value.fieldId.Some? && v[value.father].fieldId.Some?
    ensures HeldAfter(v, value, k).fieldId.Some?
  {
    if k > 0 {
      NeverEnds(v, value, k - 1);
    }
  }

  lemma FieldSeqEnds(v: Values, n: nat, i: nat)
    requires Ordered(v) && Labelled(v, n) && i < |v|
    ensures v[i].father < |v| && v[v[i].father].fieldId == None
  {
  }

  /** Two fields down from a fresh local, the recorded sequence names another place: one that is
      not even there. */
  lemma DepthTwoMisnamed()
    ensures var v := Walk(Locals(1), 0, 0, FieldSteps([1, 2], true, true)).0;
            ArenaInv(v, [0, 1, 2], 1) && At(v, 0, [1, 2]) == Some(2) && FieldSeq(v[2]) == [2] && At(v, 0, [2]) == None
  {
    var r := TwoFieldsDown();
    var p: seq<nat> := [0, 1, 2];
    FlatIsAcyclic(p);
    FlatIsAcyclic([0]);
    FreshArena(1, [0]);
    WalkKeepsTrees(Locals(1), 0, 0, FieldSteps([1, 2], true, true), 1);
    TwoFieldPaths(r.0);
  }

  lemma TwoFieldPaths(v: Values)
    requires Ordered(v) && |v| == 3 && v[0].fields == map[1 := 1] && v[1].fields == map[2 := 2]
    ensures At(v, 0, [1, 2]) == Some(2) && At(v, 0, [2]) == None
  {
    MergeTrees.AtField(v, 0, 1, [2]);
    MergeTrees.AtField(v, 1, 2, []);
    assert [1] + [2] == [1, 2] && [2] + [] == [2];
  }

  /** The recorded sequence names the node itself only down to direct fields of a local. */
  lemma FieldSeqExact(v: Values, n: nat, i: nat, path: seq<nat>)
    requires Ordered(v) && Trees(v, n) && i < |v| && At(v, v[i].local, path) == Some(i)
    ensures |path| <= 1 ==> FieldSeq(v[i]) == path
    ensures At(v, v[i].local, FieldSeq(v[i])) == Some(i) <==> |path| <= 1
  {
    var root := v[i].local;
    if path != [] {
      AtLast(v, root, path);
      var h, f := path[..|path| - 1], path[|path| - 1];
      var y := At(v, root, h).value;
      assert v[i].fieldId == Some(f);
      if |path| == 1 {
        assert path == [f];
      } else {
        AtAbove(v, root, h);
        assert root != y;
        MergeTrees.AtField(v, root, f, []);
        assert [f] + [] == [f];
      }
    }
  }

  // ---------------------------------------------------------------- extraction

  function Pair(x: ValueNode, y: ValueNode): RetAlias {
    RetAlias(x.local, FieldSeq(x), x.mayDrop, x.needDrop, y.local, FieldSeq(y), y.mayDrop, y.needDrop)
  }

  /** The return place goes to the left. */
  function Oriented(x: ValueNode, y: ValueNode): RetAlias {
    if y.local == 0 then Pair(y, x) else Pair(x, y)
  }

  /** Two places of different locals among the return place and the arguments, aliasing. */
  ghost predicate Exposed(v: Values, p: seq<nat>, argSize: nat, i: nat, j: nat) {
    && i < |v| && j < |v| && i != j && v[i].local != v[j].local
    && v[i].local <= argSize && v[j].local <= argSize && Same(p, i, j)
  }

  /** `ret` stems from a node below `m`. */
  ghost predicate FoundUpTo(v: Values, p: seq<nat>, argSize: nat, m: nat, ret: RetAlias) {
    exists i: nat, j: nat :: Exposed(v, p, argSize, i, j) && 1 <= j && i < m && ret == Oriented(v[i], v[j])
  }

  ghost predicate Recorded(v: Values, p: seq<nat>, argSize: nat, ret: RetAlias) {
    FoundUpTo(v, p, argSize, |v|, ret)
  }

  /** `merge_results`: adds the recorded pairs of a leaf state to the result set. */
  method MergeResults(v: Values, p: seq<nat>, argSize: nat, n: nat, before: set<RetAlias>)
    returns (found: set<RetAlias>)
    requires ArenaInv(v, p, n) && argSize < n
    ensures forall ret :: ret in found <==> ret in before || Recorded(v, p, argSize, ret)
  {
    found := before;
    for m := 0 to |v|
      invariant forall ret :: ret in found <==> ret in before || FoundUpTo(v, p, argSize, m, ret)
    {
      var node := v[m];
      var self := UnionIsSame(p, node.index, p[node.index]);
      var linked := p[node.index] != node.index;
      if node.local <= argSize && (self || linked) {
        found := MergeNode(v, p, argSize, n, m, found);
      }
      forall ret ensures ret in found <==> ret in before || FoundUpTo(v, p, argSize, m + 1, ret) {
        NextNode(v, p, argSize, m, ret);
      }
    }
  }

  /** The inner loop: partners of node `m`. */
  method MergeNode(v: Values, p: seq<nat>, argSize: nat, n: nat, m: nat, before: set<RetAlias>)
    returns (found: set<RetAlias>)
    requires ArenaInv(v, p, n) && argSize < n && m < |v| && v[m].local <= argSize
    ensures forall ret :: ret in found <==> ret in before || FoundWith(v, p, argSize, m, |v|, ret)
  {
    found := before;
    var k := 1;
    while k < |v|
      invariant 1 <= k && (k <= |v| || |v| == 0)
      invariant forall ret :: ret in found <==> ret in before || FoundWith(v, p, argSize, m, k, ret)
    {
      var same := UnionIsSame(p, k, m);
      if same && v[k].local <= argSize && k != m && v[m].local != v[k].local {
        var left, right;
        if v[k].local == 0 {
          left, right := v[k], v[m];
        } else {
          left, right := v[m], v[k];
        }
        FieldSeqEnds(v, n, k);
        FieldSeqEnds(v, n, m);
        var leftFields := GetFieldSeq(v, left);
        var rightFields := GetFieldSeq(v, right);
        found := found + {RetAlias(left.local, leftFields.value, left.mayDrop, left.needDrop,
                                   right.local, rightFields.value, right.mayDrop, right.needDrop)};
      }
      k := k + 1;
    }
  }

  ghost predicate FoundWith(v: Values, p: seq<nat>, argSize: nat, m: nat, k: nat, ret: RetAlias) {
    exists j: nat :: 1 <= j < k && Exposed(v, p, argSize, m, j) && ret == Oriented(v[m], v[j])
  }

  lemma NextNode(v: Values, p: seq<nat>, argSize: nat, m: nat, ret: RetAlias)
    requires m < |v|
    ensures FoundUpTo(v, p, argSize, m + 1, ret) <==>
            FoundUpTo(v, p, argSize, m, ret) || FoundWith(v, p, argSize, m, |v|, ret)
  {
    if FoundUpTo(v, p, argSize, m + 1, ret) {
      var i: nat, j: nat :| Exposed(v, p, argSize, i, j) && 1 <= j && i < m + 1 && ret == Oriented(v[i], v[j]);
      assert i == m || i < m;
    }
  }

  /** Every exposed alias is recorded, with the return place never on the right. */
  lemma SummaryComplete(v: Values, p: seq<nat>, n: nat, argSize: nat, i: nat, j: nat)
    requires ArenaInv(v, p, n) && argSize < n && Exposed(v, p, argSize, i, j)
    ensures Recorded(v, p, argSize, Pair(v[i], v[j])) || Recorded(v, p, argSize, Pair(v[j], v[i]))
    ensures v[i].local != 0 && v[j].local != 0 ==>
              Recorded(v, p, argSize, Pair(v[i], v[j])) && Recorded(v, p, argSize, Pair(v[j], v[i]))
  {
    assert Exposed(v, p, argSize, j, i);
    if j == 0 {
      assert Oriented(v[j], v[i]) == Pair(v[j], v[i]);
    } else {
      assert Recorded(v, p, argSize, Oriented(v[i], v[j]));
      if i != 0 {
        assert Recorded(v, p, argSize, Oriented(v[j], v[i]));
      }
    }
  }

  /** Recorded pairs are exposed aliases of different locals; the right one is no return place. */
  lemma SummarySound(v: Values, p: seq<nat>, n: nat, argSize: nat, ret: RetAlias) returns (i: nat, j: nat)
    requires ArenaInv(v, p, n) && argSize < n && Recorded(v, p, argSize, ret)
    ensures Exposed(v, p, argSize, i, j) && ret == Pair(v[i], v[j])
    ensures ret.leftIndex == v[i].local && ret.leftMayDrop == v[i].mayDrop && ret.leftNeedDrop == v[i].needDrop
    ensures ret.rightIndex == v[j].local && ret.rightMayDrop == v[j].mayDrop && ret.rightNeedDrop == v[j].needDrop
    ensures ret.rightIndex != 0 && ret.leftIndex != ret.rightIndex
  {
    var a: nat, b: nat :| Exposed(v, p, argSize, a, b) && 1 <= b && ret == Oriented(v[a], v[b]);
    if v[b].local == 0 {
      i, j := b, a;
      assert Same(p, b, a);
    } else {
      i, j := a, b;
    }
  }

  // ---------------------------------------------------------------- replay

  /** The whole trip: two droppable places of a callee's leaf state, each a local or a direct
      field, that alias there, alias in any caller state in which the recorded pairs have
      been replayed over its arguments. */
  lemma CalleeAliasReachesCaller(
    v: Values, p: seq<nat>, n: nat, argSize: nat, i: nat, j: nat, pathI: seq<nat>, pathJ: seq<nat>,
    w: Values, q: seq<nat>, args: seq<nat>)
    requires ArenaInv(v, p, n) && argSize < n && Exposed(v, p, argSize, i, j) && v[i].mayDrop && v[j].mayDrop
    requires At(v, v[i].local, pathI) == Some(i) && At(v, v[j].local, pathJ) == Some(j) && |pathI| <= 1 && |pathJ| <= 1
    requires Ordered(w) && |args| == argSize + 1 && forall k :: 0 <= k < |args| ==> args[k] < |w|
    requires forall ret :: Recorded(v, p, argSize, ret) && ret.leftMayDrop && ret.rightMayDrop && InRange(ret, args) ==>
               PlacesAlias(w, q, ret, args)
    ensures At(w, args[v[i].local], pathI).Some? && At(w, args[v[j].local], pathJ).Some?
    ensures Same(q, At(w, args[v[i].local], pathI).value, At(w, args[v[j].local], pathJ).value)
  {
    FieldSeqExact(v, n, i, pathI);
    FieldSeqExact(v, n, j, pathJ);
    SummaryComplete(v, p, n, argSize, i, j);
    if Recorded(v, p, argSize, Pair(v[i], v[j])) {
      assert PlacesAlias(w, q, Pair(v[i], v[j]), args);
    } else {
      assert PlacesAlias(w, q, Pair(v[j], v[i]), args);
    }
  }

  /** The places of two exposed callee nodes alias in the caller. */
  ghost predicate ReachesCaller(v: Values, i: nat, j: nat, pathI: seq<nat>, pathJ: seq<nat>, w: Values, q: seq<nat>,
                                args: seq<nat>)
    requires Ordered(w) && i < |v| && j < |v| && v[i].local < |args| && v[j].local < |args|
    requires forall k :: 0 <= k < |args| ==> args[k] < |w|
  {
    var x, y := At(w, args[v[i].local], pathI), At(w, args[v[j].local], pathJ);
    x.Some? && y.Some? && Same(q, x.value, y.value)
  }

  /** A call: the summary of a callee's leaf state is extracted and replayed over distinct
      whole-local arguments. All droppable places of the callee, locals or direct fields, that
      alias there alias in the caller, and nothing in the caller is separated. */
  method CallThrough(v: Values, p: seq<nat>, n: nat, argSize: nat, caller: Graph, args: seq<nat>, ghost locals: nat)
    returns (summary: set<RetAlias>)
    requires ArenaInv(v, p, n) && argSize < n
    requires ArenaInv(caller.values, caller.aliasSet, locals) && DistinctLocals(args, locals) && |args| == argSize + 1
    modifies caller`values, caller`aliasSet
    ensures ArenaInv(caller.values, caller.aliasSet, locals) && Extends(old(caller.values), caller.values)
    ensures Coarser(old(caller.aliasSet), caller.aliasSet)
    ensures forall i: nat, j: nat, pathI, pathJ ::
              (Exposed(v, p, argSize, i, j) && v[i].mayDrop && v[j].mayDrop && |pathI| <= 1 && |pathJ| <= 1
               && At(v, v[i].local, pathI) == Some(i) && At(v, v[j].local, pathJ) == Some(j))
              ==> ReachesCaller(v, i, j, pathI, pathJ, caller.values, caller.aliasSet, args)
  {
    summary := MergeResults(v, p, argSize, n, {});
    forall ret | ret in summary ensures ret.leftIndex != ret.rightIndex {
      var i, j := SummarySound(v, p, n, argSize, ret);
    }
    ghost var order, trace := caller.ReplaySummary(summary, args, locals);
    forall i: nat, j: nat, pathI, pathJ
      | Exposed(v, p, argSize, i, j) && v[i].mayDrop && v[j].mayDrop && |pathI| <= 1 && |pathJ| <= 1
        && At(v, v[i].local, pathI) == Some(i) && At(v, v[j].local, pathJ) == Some(j)
      ensures ReachesCaller(v, i, j, pathI, pathJ, caller.values, caller.aliasSet, args)
    {
      CalleeAliasReachesCaller(v, p, n, argSize, i, j, pathI, pathJ, caller.values, caller.aliasSet, args);
    }
  }

  /** `merge` names a created left field after the argument's value index. That keeps the
      shared locals exactly when the argument is a whole local or nothing is created. */
  lemma {:induction false} LeftWalkShares(v: Values, id: nat, projs: seq<Proj>, local: nat)
    requires Ordered(v) && SharesLocal(v) && id < |v|
    ensures SharesLocal(Walk(v, local, id, projs).0)
            <==> v[id].local == local || |Walk(v, local, id, projs).0| == |v|
    decreases projs
  {
    if projs != [] {
      match projs[0]
      case Field(f, needDrop, mayDrop, kind) =>
        if f in v[id].fields {
          LeftWalkShares(v, v[id].fields[f], projs[1..], local);
        } else {
          var node := NewNode(|v|, local, needDrop, mayDrop, kind, f);
          AddFieldOrdered(v, id, f, node);
          var u := AddField(v, id, f, node);
          var w := Walk(u, local, |v|, projs[1..]).0;
          WalkReaches(u, local, |v|, projs[1..]);
          assert u[id].fields[f] == |v| && w[id].fields[f] == |v|;
          assert w[|v|].local == local && w[id].local == v[id].local;
          if v[id].local == local {
            SharesAfterAdd(v, id, f, node);
            LeftWalkShares(u, |v|, projs[1..], local);
          }
        }
      case _ =>
        LeftWalkShares(v, id, projs[1..], local);
    }
  }

  /** The arena after following fields 1 and 2 from a fresh local. */
  lemma TwoFieldsDown() returns (r: (Values, nat))
    ensures r == Walk(Locals(1), 0, 0, FieldSteps([1, 2], true, true)) && r.1 == 2
    ensures r.0 == [Locals(1)[0].(fields := map[1 := 1]), NewNode(1, 0, true, true, RawPtr, 1).(fields := map[2 := 2]),
                    NewNode(2, 0, true, true, RawPtr, 2)]
  {
    var steps := FieldSteps([1, 2], true, true);
    var x, y := NewNode(1, 0, true, true, RawPtr, 1), NewNode(2, 0, true, true, RawPtr, 2);
    var v0 := Locals(1);
    var v1 := AddField(v0, 0, 1, x);
    AddFieldOrdered(v0, 0, 1, x);
    var v2 := AddField(v1, 1, 2, y);
    AddFieldOrdered(v1, 1, 2, y);
    assert steps[0] == Field(1, true, true, RawPtr) && steps[1..][0] == Field(2, true, true, RawPtr);
    assert steps[1..][1..] == [];
    assert Walk(v1, 0, 1, steps[1..]) == Walk(v2, 0, 2, steps[1..][1..]) == (v2, 2);
    assert Walk(v0, 0, 0, steps) == Walk(v1, 0, 1, steps[1..]);
    r := (v2, 2);
  }

  /** A field as argument: node 1, field 1 of local 0. A field created below it by the left walk
      gets local 1, which is not its parent's. */
  lemma FieldArgumentBreaksLocal()
    ensures var v := Walk(Locals(1), 0, 0, FieldSteps([1], true, true)).0;
            Ordered(v) && SharesLocal(v) && |v| == 2 && !SharesLocal(Walk(v, 1, 1, FieldSteps([5], true, true)).0)
  {
    var first, second := FieldSteps([1], true, true), FieldSteps([5], true, true);
    var x := NewNode(1, 0, true, true, RawPtr, 1);
    AddFieldOrdered(Locals(1), 0, 1, x);
    var v := AddField(Locals(1), 0, 1, x);
    assert first[1..] == [] && Walk(Locals(1), 0, 0, first) == (v, 1);
    SharesAfterAdd(Locals(1), 0, 1, x);
    var y := NewNode(2, 1, true, true, RawPtr, 5);
    AddFieldOrdered(v, 1, 5, y);
    assert second[1..] == [] && Walk(v, 1, 1, second).0 == AddField(v, 1, 5, y);
    LeftWalkShares(v, 1, second, 1);
  }

  lemma SharesAfterAdd(v: Values, n: nat, f: nat, node: ValueNode)
    requires Ordered(v) && SharesLocal(v) && n < |v| && f !in v[n].fields
    requires node.index == |v| && node.fields == map[] && node.local == v[n].local
    ensures Ordered(AddField(v, n, f, node)) && SharesLocal(AddField(v, n, f, node))
  {
    AddFieldOrdered(v, n, f, node);
    var w := AddField(v, n, f, node);
    forall i, g | 0 <= i < |w| && g in w[i].fields ensures w[w[i].fields[g]].local == w[i].local {
      if i < |v| && g in v[i].fields {
        assert w[i].fields[g] == v[i].fields[g];
      }
    }
  }
}
