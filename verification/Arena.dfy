/** The value arena of the alias analyses: locals and the field trees that grow under them. */
module Arena {
  import opened Wrappers
  import opened UnionFind

  datatype Kind = Adt | RawPtr | Ref | Tuple | CornerCase

  datatype ValueNode = ValueNode(
    index: nat,
    local: nat,
    needDrop: bool,
    mayDrop: bool,
    kind: Kind,
    father: nat,
    fieldId: Option<nat>,     // `None` stands for the sentinel usize::MAX
    fields: map<nat, nat>)

  type Values = seq<ValueNode>

  /** The arena with its parent array. */
  datatype Snapshot = Snapshot(values: Values, aliasSet: seq<nat>)

  /** `ValueNode::new` followed by the two assignments every caller makes. */
  function NewNode(index: nat, local: nat, needDrop: bool, mayDrop: bool, kind: Kind, fieldId: nat): ValueNode {
    ValueNode(index, local, needDrop, mayDrop, kind, local, Some(fieldId), map[])
  }

  /** Every node knows its own position and lies below its fields. */
  ghost predicate Ordered(v: Values) {
    && (forall i :: 0 <= i < |v| ==> v[i].index == i)
    && (forall i, f :: 0 <= i < |v| && f in v[i].fields ==> i < v[i].fields[f] < |v|)
  }

  /** No node is a field twice. */
  ghost predicate UniqueParent(v: Values) {
    forall i, f, j, g ::
      (0 <= i < |v| && 0 <= j < |v| && f in v[i].fields && g in v[j].fields && v[i].fields[f] == v[j].fields[g])
      ==> i == j && f == g
  }

  /** Every child carries its parent's `local`. */
  ghost predicate SharesLocal(v: Values)
    requires Ordered(v)
  {
    forall i, f :: 0 <= i < |v| && f in v[i].fields ==> v[v[i].fields[f]].local == v[i].local
  }

  /** The first `n` nodes are the locals; every other node remembers the field it fills
      and the local it belongs to. */
  ghost predicate Labelled(v: Values, n: nat)
    requires Ordered(v)
  {
    && n <= |v|
    && (forall i :: 0 <= i < n ==> v[i].local == i && v[i].fieldId == None)
    && (forall i :: 0 <= i < |v| ==> v[i].father == v[i].local < n)
    && (forall i, f :: 0 <= i < |v| && f in v[i].fields ==> v[v[i].fields[f]].fieldId == Some(f))
  }

  /** Field edges form a forest over the `n` locals, one tree per local. */
  ghost predicate Trees(v: Values, n: nat)
    requires Ordered(v)
  {
    UniqueParent(v) && SharesLocal(v) && Labelled(v, n)
  }

  /** The invariant of the analysis: the forest, in step with an acyclic parent array. */
  ghost predicate ArenaInv(v: Values, p: seq<nat>, n: nat) {
    Ordered(v) && Trees(v, n) && |p| == |v| && Acyclic(p)
  }

  /** Nodes keep what they had; field maps only gain entries for added nodes. */
  ghost predicate Extends(v: Values, w: Values) {
    && |v| <= |w|
    && (forall i :: 0 <= i < |v| ==> w[i] == v[i].(fields := w[i].fields))
    && (forall i, f :: 0 <= i < |v| && f in v[i].fields ==> f in w[i].fields && w[i].fields[f] == v[i].fields[f])
    && (forall i, f :: 0 <= i < |v| && f in w[i].fields && f !in v[i].fields ==> |v| <= w[i].fields[f])
  }

  lemma ExtendsTrans(u: Values, v: Values, w: Values)
    requires Extends(u, v) && Extends(v, w)
    ensures Extends(u, w)
  {
  }

  /** The node that field path `path` reaches from `n`, if it is there. */
  ghost function At(v: Values, n: nat, path: seq<nat>): (r: Option<nat>)
    requires Ordered(v) && n < |v|
    ensures r.Some? ==> r.value < |v|
    decreases |path|
  {
    if path == [] then Some(n)
    else if path[0] in v[n].fields then At(v, v[n].fields[path[0]], path[1..])
    else None
  }

  lemma {:induction false} AtExtends(v: Values, w: Values, n: nat, path: seq<nat>)
    requires Ordered(v) && Ordered(w) && Extends(v, w) && n < |v|
    ensures At(v, n, path).Some? ==> At(w, n, path) == At(v, n, path)
    decreases |path|
  {
    if path != [] && path[0] in v[n].fields {
      AtExtends(v, w, v[n].fields[path[0]], path[1..]);
    }
  }

  /** Concatenated paths compose. */
  lemma {:induction false} AtConcat(v: Values, n: nat, path: seq<nat>, rest: seq<nat>)
    requires Ordered(v) && n < |v|
    ensures At(v, n, path).Some? ==> At(v, n, path + rest) == At(v, At(v, n, path).value, rest)
    decreases |path|
  {
    if path == [] {
      assert path + rest == rest;
    } else if path[0] in v[n].fields {
      assert (path + rest)[1..] == path[1..] + rest;
      AtConcat(v, v[n].fields[path[0]], path[1..], rest);
    }
  }

  /** Paths lead upwards. */
  lemma {:induction false} AtAbove(v: Values, n: nat, path: seq<nat>)
    requires Ordered(v) && n < |v|
    ensures At(v, n, path).Some? ==> n <= At(v, n, path).value && (path != [] ==> n < At(v, n, path).value)
    decreases |path|
  {
    if path != [] && path[0] in v[n].fields {
      AtAbove(v, v[n].fields[path[0]], path[1..]);
    }
  }

  /** A path to an old node was there before. */
  lemma {:induction false} AtOld(v: Values, w: Values, n: nat, path: seq<nat>)
    requires Ordered(v) && Ordered(w) && Extends(v, w) && n < |v|
    ensures At(w, n, path).Some? && At(w, n, path).value < |v| ==> At(v, n, path) == At(w, n, path)
    decreases |path|
  {
    if path != [] && path[0] in w[n].fields {
      AtAbove(w, w[n].fields[path[0]], path[1..]);
      if path[0] in v[n].fields {
        AtOld(v, w, v[n].fields[path[0]], path[1..]);
      }
    }
  }

  /** The last step of a path. */
  lemma AtLast(v: Values, n: nat, path: seq<nat>)
    requires Ordered(v) && n < |v| && path != [] && At(v, n, path).Some?
    ensures var h, f := path[..|path| - 1], path[|path| - 1];
            At(v, n, h).Some? && f in v[At(v, n, h).value].fields
            && v[At(v, n, h).value].fields[f] == At(v, n, path).value
  {
    var h, f := path[..|path| - 1], path[|path| - 1];
    assert path == h + [f];
    PrefixThere(v, n, h, [f]);
    AtConcat(v, n, h, [f]);
    assert [f][1..] == [];
  }

  lemma {:induction false} PrefixThere(v: Values, n: nat, path: seq<nat>, rest: seq<nat>)
    requires Ordered(v) && n < |v| && At(v, n, path + rest).Some?
    ensures At(v, n, path).Some?
    decreases |path|
  {
    if path != [] {
      assert (path + rest)[1..] == path[1..] + rest;
      PrefixThere(v, v[n].fields[path[0]], path[1..], rest);
    }
  }

  // ---------------------------------------------------------------- sets closed under fields

  ghost predicate ClosedSet(v: Values, a: set<nat>)
    requires Ordered(v)
  {
    && (forall i :: i in a ==> i < |v|)
    && (forall i, f :: i in a && f in v[i].fields ==> v[i].fields[f] in a)
  }

  /** The tree below `n`. */
  ghost function Desc(v: Values, n: nat): set<nat>
    requires Ordered(v) && n < |v|
  {
    set x | 0 <= x < |v| && IsBelow(v, n, x)
  }

  ghost predicate IsBelow(v: Values, n: nat, x: nat)
    requires Ordered(v) && n < |v|
  {
    exists path :: At(v, n, path) == Some(x)
  }

  lemma DescClosed(v: Values, n: nat)
    requires Ordered(v) && n < |v|
    ensures ClosedSet(v, Desc(v, n)) && n in Desc(v, n)
  {
    assert At(v, n, []) == Some(n);
    forall i, f | i in Desc(v, n) && f in v[i].fields ensures v[i].fields[f] in Desc(v, n) {
      var path :| At(v, n, path) == Some(i);
      AtConcat(v, n, path, [f]);
      assert [f][1..] == [];
      assert At(v, n, path + [f]) == Some(v[i].fields[f]);
    }
  }

  lemma {:induction false} ClosedKeepsPath(v: Values, s: set<nat>, n: nat, path: seq<nat>)
    requires Ordered(v) && ClosedSet(v, s) && n in s
    ensures At(v, n, path).Some? ==> At(v, n, path).value in s
    decreases |path|
  {
    if path != [] && path[0] in v[n].fields {
      ClosedKeepsPath(v, s, v[n].fields[path[0]], path[1..]);
    }
  }

  lemma DescInClosed(v: Values, s: set<nat>, n: nat)
    requires Ordered(v) && ClosedSet(v, s) && n in s
    ensures Desc(v, n) <= s
  {
    forall x | x in Desc(v, n) ensures x in s {
      var path :| At(v, n, path) == Some(x);
      ClosedKeepsPath(v, s, n, path);
    }
  }

  /** Different fields of one node have disjoint trees. */
  lemma {:induction false} SiblingsDisjoint(v: Values, n: nat, f: nat, g: nat, path: seq<nat>, other: seq<nat>)
    requires Ordered(v) && UniqueParent(v) && n < |v| && f in v[n].fields && g in v[n].fields && f != g
    requires At(v, v[n].fields[f], path).Some?
    ensures At(v, v[n].fields[g], other) != At(v, v[n].fields[f], path)
    decreases |path| + |other|
  {
    var a, b := v[n].fields[f], v[n].fields[g];
    if At(v, b, other) == At(v, a, path) {
      AtAbove(v, a, path);
      AtAbove(v, b, other);
      if path != [] {
        AtLast(v, a, path);
        if other != [] {
          AtLast(v, b, other);
          SiblingsDisjoint(v, n, f, g, path[..|path| - 1], other[..|other| - 1]);
        } else {
          AtAbove(v, a, path[..|path| - 1]);
        }
      } else if other != [] {
        AtLast(v, b, other);
        AtAbove(v, b, other[..|other| - 1]);
      }
    }
  }

  /** The nodes of `v` added since it had `n` nodes. */
  ghost function Added(v: Values, n: nat): set<nat> {
    set i | 0 <= i < |v| && n <= v[i].index
  }

  /** Nodes outside `a` are untouched. */
  ghost predicate OnlyChanges(v: Values, w: Values, a: set<nat>) {
    |v| <= |w| && forall i :: 0 <= i < |v| && i !in a ==> w[i] == v[i]
  }

  /** Field paths inside an untouched closed set read the same. */
  lemma {:induction false} AtUnchanged(v: Values, w: Values, a: set<nat>, b: set<nat>, n: nat, path: seq<nat>)
    requires Ordered(v) && Ordered(w) && ClosedSet(v, b) && OnlyChanges(v, w, a) && a !! b && n in b
    ensures n < |v| && At(w, n, path) == At(v, n, path)
    decreases |path|
  {
    if path != [] && path[0] in v[n].fields {
      AtUnchanged(v, w, a, b, v[n].fields[path[0]], path[1..]);
    }
  }

  lemma StillClosed(v: Values, w: Values, a: set<nat>, b: set<nat>)
    requires Ordered(v) && Ordered(w) && ClosedSet(v, b) && OnlyChanges(v, w, a) && a !! b
    ensures ClosedSet(w, b)
  {
  }

  /** The nodes of one local form a closed set, so different locals have disjoint trees. */
  lemma LocalIsClosed(v: Values, local: nat)
    requires Ordered(v) && SharesLocal(v)
    ensures ClosedSet(v, OfLocal(v, local))
  {
  }

  ghost function OfLocal(v: Values, local: nat): set<nat> {
    set i | 0 <= i < |v| && v[i].local == local
  }

  // ---------------------------------------------------------------- one more field

  /** The arena after node `n` gets a fresh child for field `f`. */
  function AddField(v: Values, n: nat, f: nat, node: ValueNode): (w: Values)
    requires n < |v|
  {
    v[n := v[n].(fields := v[n].fields[f := |v|])] + [node]
  }

  lemma AddFieldOrdered(v: Values, n: nat, f: nat, node: ValueNode)
    requires Ordered(v) && n < |v| && f !in v[n].fields && node.index == |v| && node.fields == map[]
    ensures Ordered(AddField(v, n, f, node)) && Extends(v, AddField(v, n, f, node))
    ensures At(AddField(v, n, f, node), n, [f]) == Some(|v|)
  {
    AddFieldIndexed(v, n, f, node);
    var w := AddField(v, n, f, node);
    assert At(w, |v|, [f][1..]) == Some(|v|);
  }

  lemma AddFieldIndexed(v: Values, n: nat, f: nat, node: ValueNode)
    requires Ordered(v) && n < |v| && f !in v[n].fields && node.index == |v| && node.fields == map[]
    ensures Ordered(AddField(v, n, f, node))
  {
    var w := AddField(v, n, f, node);
    forall i, g | 0 <= i < |w| && g in w[i].fields ensures i < w[i].fields[g] < |w| {
      if i < |v| && g in v[i].fields {
        assert w[i].fields[g] == v[i].fields[g];
      }
    }
  }

  lemma AddFieldUnique(v: Values, n: nat, f: nat, node: ValueNode)
    requires Ordered(v) && UniqueParent(v) && n < |v| && f !in v[n].fields && node.fields == map[]
    ensures UniqueParent(AddField(v, n, f, node))
  {
    var w := AddField(v, n, f, node);
    forall i, g | 0 <= i < |w| && g in w[i].fields
      ensures (i == n && g == f && w[i].fields[g] == |v|)
              || (i < |v| && g in v[i].fields && w[i].fields[g] == v[i].fields[g] && w[i].fields[g] < |v|)
    {
    }
  }

  lemma AddFieldTrees(v: Values, n: nat, f: nat, node: ValueNode, locals: nat)
    requires Ordered(v) && Trees(v, locals) && n < |v| && f !in v[n].fields
    requires node.index == |v| && node.fields == map[] && node.father == node.local == v[n].local
    requires node.fieldId == Some(f)
    ensures Ordered(AddField(v, n, f, node)) && Trees(AddField(v, n, f, node), locals)
  {
    AddFieldOrdered(v, n, f, node);
    AddFieldUnique(v, n, f, node);
    var w := AddField(v, n, f, node);
    forall i, g | 0 <= i < |w| && g in w[i].fields
      ensures w[w[i].fields[g]].local == w[i].local && w[w[i].fields[g]].fieldId == Some(g)
    {
      if i < |v| && g in v[i].fields {
        assert w[i].fields[g] == v[i].fields[g];
      }
    }
  }

  lemma AddFieldClosed(v: Values, n: nat, f: nat, node: ValueNode, a: set<nat>)
    requires Ordered(v) && n in a && ClosedSet(v, a) && f !in v[n].fields
    requires node.index == |v| && node.fields == map[]
    ensures Ordered(AddField(v, n, f, node)) && ClosedSet(AddField(v, n, f, node), a + {|v|})
    ensures OnlyChanges(v, AddField(v, n, f, node), a)
  {
    AddFieldOrdered(v, n, f, node);
  }

  // ---------------------------------------------------------------- growing the parent array

  /** The parent array with identity entries up to length `n`. */
  function Grown(p: seq<nat>, n: nat): (q: seq<nat>)
    requires |p| <= n
    ensures |q| == n
  {
    p + seq(n - |p|, i => |p| + i)
  }

  lemma GrownStep(p: seq<nat>, n: nat)
    requires |p| <= n
    ensures Grown(p, n) + [n] == Grown(p, n + 1)
  {
  }

  lemma GrownTwice(p: seq<nat>, m: nat, n: nat)
    requires |p| <= m <= n
    ensures Grown(Grown(p, m), n) == Grown(p, n)
  {
  }

  lemma GrownAcyclic(p: seq<nat>, n: nat)
    requires |p| <= n && Acyclic(p)
    ensures Acyclic(Grown(p, n))
    ensures forall x :: 0 <= x < |p| ==> Root(Grown(p, n), x) == Root(p, x)
    ensures forall x :: |p| <= x < n ==> Root(Grown(p, n), x) == x
  {
    var q := Grown(p, n);
    assert RankedBy(q, RankOf(p) + seq(n - |p|, i => 0));
    forall x | 0 <= x < |p| ensures Root(q, x) == Root(p, x) {
      GrownRoot(p, n, x);
    }
  }

  lemma {:induction false} GrownRoot(p: seq<nat>, n: nat, x: nat)
    requires |p| <= n && Acyclic(p) && Acyclic(Grown(p, n)) && x < |p|
    ensures Root(Grown(p, n), x) == Root(p, x)
    decreases RankOf(p)[x]
  {
    if p[x] != x {
      GrownRoot(p, n, p[x]);
    }
  }

  lemma GrownRespects(p: seq<nat>, n: nat, c: seq<nat>)
    requires |p| <= n <= |c| && Acyclic(p)
    ensures Respects(c, Grown(p, n)) <==> Respects(c, p)
  {
    var q := Grown(p, n);
    if Respects(c, p) {
      forall x | 0 <= x < n ensures q[x] < n && c[x] == c[q[x]] {
        if x < |p| {
          assert q[x] == p[x];
        }
      }
    }
    if Respects(c, q) {
      var rank := RankOf(p);
      forall x | 0 <= x < |p| ensures p[x] < |p| && c[x] == c[p[x]] {
        assert q[x] == p[x];
      }
    }
  }
}
