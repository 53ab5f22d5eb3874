/** Structural merging of field trees (`merge_alias`): what it adds to the alias partition. */
module MergeTrees {
  import opened Wrappers
  import opened UnionFind
  import opened Arena

  /** `l` has every field path of `r`. */
  ghost predicate CoversTree(v: Values, l: nat, r: nat)
    requires Ordered(v) && l < |v| && r < |v|
  {
    forall path :: At(v, r, path).Some? ==> At(v, l, path).Some?
  }

  /** Labelling `c` gives `l.path` and `r.path` the same label for every path of `r`'s tree. */
  ghost predicate Aligned(c: seq<nat>, v: Values, l: nat, r: nat)
    requires Ordered(v) && l < |v| && r < |v| && |c| >= |v|
  {
    forall path :: At(v, r, path).Some? ==>
      At(v, l, path).Some? && c[At(v, l, path).value] == c[At(v, r, path).value]
  }

  /** `Aligned`, with only the fields in `done` followed. */
  ghost predicate AlignedOn(c: seq<nat>, v: Values, l: nat, r: nat, done: set<nat>)
    requires Ordered(v) && l < |v| && r < |v| && |c| >= |v|
    requires done <= v[l].fields.Keys && done <= v[r].fields.Keys
  {
    c[l] == c[r] && forall f :: f in done ==> Aligned(c, v, v[l].fields[f], v[r].fields[f])
  }

  /** Partition `p` over `v` is the least one that contains `p0` and all pairs
      (`l.path`, `r.path`) for the paths of `r`'s tree: a labelling respects `p` exactly when
      it respects `p0` and aligns the two trees. */
  ghost predicate LeastMerge(p0: seq<nat>, v: Values, p: seq<nat>, l: nat, r: nat)
    requires Ordered(v) && l < |v| && r < |v|
  {
    forall c :: |c| >= |v| ==> (Respects(c, p) <==> Respects(c, p0) && Aligned(c, v, l, r))
  }

  lemma AtField(v: Values, n: nat, f: nat, rest: seq<nat>)
    requires Ordered(v) && n < |v|
    ensures At(v, n, [f] + rest) == if f in v[n].fields then At(v, v[n].fields[f], rest) else None
  {
    assert ([f] + rest)[1..] == rest;
  }

  /** Following all fields of `r` is following its whole tree. */
  lemma AlignedSplit(c: seq<nat>, v: Values, l: nat, r: nat)
    requires Ordered(v) && l < |v| && r < |v| && |c| >= |v| && v[r].fields.Keys <= v[l].fields.Keys
    ensures Aligned(c, v, l, r) <==> AlignedOn(c, v, l, r, v[r].fields.Keys)
  {
    if AlignedOn(c, v, l, r, v[r].fields.Keys) {
      forall path | At(v, r, path).Some?
        ensures At(v, l, path).Some? && c[At(v, l, path).value] == c[At(v, r, path).value]
      {
        if path != [] {
          assert path == [path[0]] + path[1..];
          AtField(v, l, path[0], path[1..]);
          AtField(v, r, path[0], path[1..]);
          assert Aligned(c, v, v[l].fields[path[0]], v[r].fields[path[0]]);
        }
      }
    }
    if Aligned(c, v, l, r) {
      assert At(v, r, []).Some?;
      forall f | f in v[r].fields ensures Aligned(c, v, v[l].fields[f], v[r].fields[f]) {
        forall rest | At(v, v[r].fields[f], rest).Some?
          ensures At(v, v[l].fields[f], rest).Some?
                  && c[At(v, v[l].fields[f], rest).value] == c[At(v, v[r].fields[f], rest).value]
        {
          AtField(v, l, f, rest);
          AtField(v, r, f, rest);
          assert At(v, r, [f] + rest).Some?;
        }
      }
    }
  }

  lemma CoversSplit(v: Values, l: nat, r: nat)
    requires Ordered(v) && l < |v| && r < |v| && v[r].fields.Keys <= v[l].fields.Keys
    requires forall f :: f in v[r].fields ==> CoversTree(v, v[l].fields[f], v[r].fields[f])
    ensures CoversTree(v, l, r)
  {
    forall path | At(v, r, path).Some? ensures At(v, l, path).Some? {
      if path != [] {
        assert path == [path[0]] + path[1..];
        AtField(v, l, path[0], path[1..]);
        AtField(v, r, path[0], path[1..]);
        assert CoversTree(v, v[l].fields[path[0]], v[r].fields[path[0]]);
      }
    }
  }

  /** Alignment of finished trees survives changes outside the right tree. */
  lemma AlignedStable(v: Values, w: Values, a: set<nat>, b: set<nat>, l: nat, r: nat)
    requires Ordered(v) && Ordered(w) && Extends(v, w) && OnlyChanges(v, w, a) && a !! b
    requires ClosedSet(v, b) && r in b && l < |v| && CoversTree(v, l, r)
    ensures CoversTree(w, l, r)
    ensures forall c :: |c| >= |w| ==> (Aligned(c, v, l, r) <==> Aligned(c, w, l, r))
  {
    forall path ensures At(w, r, path) == At(v, r, path)
    {
      AtUnchanged(v, w, a, b, r, path);
    }
    forall path | At(v, r, path).Some? ensures At(w, l, path) == At(v, l, path)
    {
      AtExtends(v, w, l, path);
    }
  }

  /** Added nodes below `l` stand at paths of `r` and copy the type facts found there; `n0` is
      the arena size before anything was added. */
  ghost predicate NewMirrors(n0: nat, v: Values, l: nat, r: nat)
    requires Ordered(v) && l < |v| && r < |v|
  {
    forall path :: path != [] && At(v, l, path).Some? && n0 <= At(v, l, path).value ==>
      At(v, r, path).Some? && Mirrors(v[At(v, l, path).value], v[At(v, r, path).value])
  }

  ghost predicate Mirrors(x: ValueNode, y: ValueNode) {
    x.needDrop == y.needDrop && x.mayDrop == y.mayDrop && x.kind == y.kind
  }

  /** From `v0` to `v` only the closed set `a` and nodes added below it changed, by growing. */
  ghost predicate Framed(v0: Values, v: Values, a: set<nat>) {
    && Ordered(v0) && Ordered(v) && ClosedSet(v0, a) && UniqueParent(v0) && UniqueParent(v)
    && Extends(v0, v) && OnlyChanges(v0, v, a) && ClosedSet(v, a + Added(v, |v0|))
    && (forall n :: Trees(v0, n) ==> Trees(v, n))
  }

  /** Partition `p` adds to `p0` the pairs of `l` and `r` and of their fields in `done`. */
  ghost predicate Accounted(p0: seq<nat>, v: Values, p: seq<nat>, l: nat, r: nat, done: set<nat>)
    requires Ordered(v)
  {
    && |p| == |v| && Acyclic(p) && l < |v| && r < |v|
    && done <= v[l].fields.Keys && done <= v[r].fields.Keys
    && (forall f :: f in done ==> CoversTree(v, v[l].fields[f], v[r].fields[f]))
    && (forall c :: |c| >= |v| ==> (Respects(c, p) <==> Respects(c, p0) && AlignedOn(c, v, l, r, done)))
  }

  /** What a finished `merge_alias` promises: `l` has `r`'s paths, added nodes copy `r`'s, and
      the partition is the least that aligns the two trees. */
  ghost predicate Merged(v0: Values, p0: seq<nat>, v: Values, p: seq<nat>, l: nat, r: nat)
    requires Ordered(v)
  {
    && |p| == |v| && Acyclic(p) && l < |v| && r < |v|
    && CoversTree(v, l, r) && NewMirrors(|v0|, v, l, r) && LeastMerge(p0, v, p, l, r)
  }

  lemma StartMerging(v: Values, p0: seq<nat>, p: seq<nat>, l: nat, r: nat)
    requires Ordered(v) && |p0| == |v| && Acyclic(p0) && |p| == |v| && Flat(p) && l < |v| && r < |v|
    requires forall x :: 0 <= x < |p0| ==> p[x] == JoinedRoot(p0, l, r, x)
    ensures Accounted(p0, v, p, l, r, {}) && NewMirrors(|v|, v, l, r)
  {
    FlatIsAcyclic(p);
    forall c | |c| >= |v| ensures Respects(c, p) <==> Respects(c, p0) && AlignedOn(c, v, l, r, {}) {
      MergeIsLeast(p0, l, r, p, c);
    }
  }

  // ---------------------------------------------------------------- frames

  lemma FramedSelf(v: Values, a: set<nat>)
    requires Ordered(v) && UniqueParent(v) && ClosedSet(v, a)
    ensures Framed(v, v, a)
  {
    assert a + Added(v, |v|) == a;
  }

  lemma FramedAdd(v: Values, a: set<nat>, l: nat, f: nat, node: ValueNode)
    requires Ordered(v) && UniqueParent(v) && ClosedSet(v, a) && l in a && f !in v[l].fields
    requires node.index == |v| && node.fields == map[] && node.father == node.local == v[l].local
    requires node.fieldId == Some(f)
    ensures Framed(v, AddField(v, l, f, node), a)
  {
    var w := AddField(v, l, f, node);
    AddFieldOrdered(v, l, f, node);
    AddFieldUnique(v, l, f, node);
    AddFieldClosed(v, l, f, node, a);
    assert a + {|v|} == a + Added(w, |v|);
    forall n | Trees(v, n) ensures Trees(w, n) {
      AddFieldTrees(v, l, f, node, n);
    }
  }

  lemma FramedWiden(v: Values, w: Values, a: set<nat>, b: set<nat>)
    requires Framed(v, w, a) && a <= b && ClosedSet(v, b)
    ensures Framed(v, w, b)
  {
    forall i, f | i in b + Added(w, |v|) && f in w[i].fields ensures w[i].fields[f] in b + Added(w, |v|) {
      if i in a + Added(w, |v|) {
        assert w[i].fields[f] in a + Added(w, |v|);
      }
    }
  }

  /** A nested merge changes only below the nodes of the outer one. */
  lemma FramedTrans(v0: Values, v: Values, w: Values, a: set<nat>)
    requires Framed(v0, v, a) && Framed(v, w, a + Added(v, |v0|))
    ensures Framed(v0, w, a)
  {
    ExtendsTrans(v0, v, w);
    assert a + Added(v, |v0|) + Added(w, |v|) == a + Added(w, |v0|);
    assert forall i :: 0 <= i < |v0| && i !in a ==> i !in a + Added(v, |v0|);
  }

  /** The right tree is neither changed nor entered. */
  lemma RightTreeKept(v0: Values, v: Values, a: set<nat>, b: set<nat>)
    requires Framed(v0, v, a) && ClosedSet(v0, b) && a !! b
    ensures ClosedSet(v, b) && (a + Added(v, |v0|)) !! b
  {
    StillClosed(v0, v, a, b);
  }

  // ---------------------------------------------------------------- accounting for the partition

  /** The trees finished so far stay aligned while the arena changes elsewhere. */
  lemma KeepDone(v: Values, w: Values, a: set<nat>, b: set<nat>, l: nat, r: nat, done: set<nat>)
    requires Ordered(v) && Ordered(w) && Extends(v, w) && OnlyChanges(v, w, a) && a !! b && ClosedSet(v, b)
    requires r in b && l < |v| && done <= v[l].fields.Keys && done <= v[r].fields.Keys
    requires forall f :: f in done ==> CoversTree(v, v[l].fields[f], v[r].fields[f])
    ensures done <= w[l].fields.Keys && done <= w[r].fields.Keys
    ensures forall f :: f in done ==> CoversTree(w, w[l].fields[f], w[r].fields[f])
    ensures forall c :: |c| >= |w| ==> (AlignedOn(c, v, l, r, done) <==> AlignedOn(c, w, l, r, done))
  {
    forall f | f in done
      ensures CoversTree(w, w[l].fields[f], w[r].fields[f])
      ensures forall c :: |c| >= |w| ==>
                (Aligned(c, v, v[l].fields[f], v[r].fields[f]) <==> Aligned(c, w, w[l].fields[f], w[r].fields[f]))
    {
      AlignedStable(v, w, a, b, v[l].fields[f], v[r].fields[f]);
    }
  }

  /** A missing field of `l` is created empty and unaliased. */
  lemma AccountedAdd(p0: seq<nat>, v: Values, p: seq<nat>, w: Values, a: set<nat>, b: set<nat>, l: nat, r: nat,
                     done: set<nat>)
    requires Ordered(v) && Accounted(p0, v, p, l, r, done)
    requires Ordered(w) && Extends(v, w) && OnlyChanges(v, w, a) && a !! b && ClosedSet(v, b) && r in b
    requires |w| == |v| + 1
    ensures Accounted(p0, w, p + [|p|], l, r, done)
  {
    var q := p + [|p|];
    assert q == Grown(p, |w|);
    GrownAcyclic(p, |w|);
    KeepDone(v, w, a, b, l, r, done);
    forall c | |c| >= |w| ensures Respects(c, q) <==> Respects(c, p0) && AlignedOn(c, w, l, r, done) {
      GrownRespects(p, |w|, c);
    }
  }

  /** One more field: the nested merge of the two children, from `p` to `q`. */
  lemma AccountedStep(p0: seq<nat>, v: Values, p: seq<nat>, w: Values, q: seq<nat>, a: set<nat>, b: set<nat>, l: nat,
                      r: nat, done: set<nat>, f: nat)
    requires Ordered(v) && Accounted(p0, v, p, l, r, done)
    requires Ordered(w) && Extends(v, w) && OnlyChanges(v, w, a) && a !! b && ClosedSet(v, b) && r in b
    requires f in v[l].fields && f in v[r].fields
    requires Merged(v, p, w, q, v[l].fields[f], v[r].fields[f])
    ensures Accounted(p0, w, q, l, r, done + {f})
  {
    KeepDone(v, w, a, b, l, r, done);
    forall c | |c| >= |w| ensures Respects(c, q) <==> Respects(c, p0) && AlignedOn(c, w, l, r, done + {f}) {
      assert Respects(c, q) <==> Respects(c, p) && Aligned(c, w, w[l].fields[f], w[r].fields[f]);
      assert Respects(c, p) <==> Respects(c, p0) && AlignedOn(c, v, l, r, done);
    }
  }

  lemma AccountedAll(v0: Values, p0: seq<nat>, v: Values, p: seq<nat>, l: nat, r: nat)
    requires Ordered(v) && l < |v| && r < |v| && Accounted(p0, v, p, l, r, v[r].fields.Keys)
    requires NewMirrors(|v0|, v, l, r)
    ensures Merged(v0, p0, v, p, l, r)
  {
    CoversSplit(v, l, r);
    forall c | |c| >= |v| ensures Respects(c, p) <==> Respects(c, p0) && Aligned(c, v, l, r) {
      AlignedSplit(c, v, l, r);
    }
  }

  // ---------------------------------------------------------------- what the added nodes are

  /** A mirrored old path stays mirrored. */
  lemma MirrorKept(n0: nat, v: Values, w: Values, a: set<nat>, b: set<nat>, l: nat, r: nat, path: seq<nat>)
    requires Ordered(v) && Ordered(w) && Extends(v, w) && OnlyChanges(v, w, a) && a !! b && ClosedSet(v, b)
    requires r in b && l < |v| && NewMirrors(n0, v, l, r) && path != []
    requires At(w, l, path).Some? && n0 <= At(w, l, path).value < |v|
    ensures At(w, r, path).Some? && Mirrors(w[At(w, l, path).value], w[At(w, r, path).value])
  {
    AtOld(v, w, l, path);
    AtUnchanged(v, w, a, b, r, path);
  }

  lemma MirrorsAdd(n0: nat, v: Values, l: nat, r: nat, f: nat, node: ValueNode, a: set<nat>, b: set<nat>)
    requires Ordered(v) && UniqueParent(v) && l in a && ClosedSet(v, a) && ClosedSet(v, b) && a !! b && r in b
    requires NewMirrors(n0, v, l, r) && f !in v[l].fields && f in v[r].fields && n0 <= |v|
    requires node.index == |v| && node.fields == map[] && Mirrors(node, v[v[r].fields[f]])
    ensures Ordered(AddField(v, l, f, node)) && NewMirrors(n0, AddField(v, l, f, node), l, r)
  {
    var w := AddField(v, l, f, node);
    AddFieldOrdered(v, l, f, node);
    AddFieldUnique(v, l, f, node);
    AddFieldClosed(v, l, f, node, a);
    forall path | path != [] && At(w, l, path).Some? && n0 <= At(w, l, path).value
      ensures At(w, r, path).Some? && Mirrors(w[At(w, l, path).value], w[At(w, r, path).value])
    {
      if At(w, l, path).value < |v| {
        MirrorKept(n0, v, w, a, b, l, r, path);
      } else {
        AtLast(w, l, path);
        var h := path[..|path| - 1];
        AtAbove(w, l, h);
        assert w[l].fields[f] == |v|;
        assert h == [] && path == [f];
        AtField(w, r, f, []);
        assert [f] + [] == [f];
      }
    }
  }

  /** The nested merge of field `f` adds only below that field. */
  lemma MirrorsStep(n0: nat, v: Values, w: Values, a: set<nat>, b: set<nat>, l: nat, r: nat, f: nat)
    requires Ordered(v) && UniqueParent(v) && l < |v| && f in v[l].fields
    requires a == Desc(v, v[l].fields[f]) && Framed(v, w, a)
    requires ClosedSet(v, b) && a !! b && r in b && f in v[r].fields
    requires NewMirrors(n0, v, l, r) && NewMirrors(|v|, w, v[l].fields[f], v[r].fields[f])
    ensures NewMirrors(n0, w, l, r)
  {
    forall path | path != [] && At(w, l, path).Some? && n0 <= At(w, l, path).value
      ensures At(w, r, path).Some? && Mirrors(w[At(w, l, path).value], w[At(w, r, path).value])
    {
      if At(w, l, path).value < |v| {
        MirrorKept(n0, v, w, a, b, l, r, path);
      } else {
        AddedBelow(v, w, l, f, path);
        MirrorNested(|v|, v, w, l, r, f, path);
      }
    }
  }

  /** A path through field `f` is mirrored because the field's trees are. */
  lemma MirrorNested(n0: nat, v: Values, w: Values, l: nat, r: nat, f: nat, path: seq<nat>)
    requires Ordered(w) && l < |v| <= |w| && r < |v| && f in v[l].fields && f in v[r].fields
    requires f in w[l].fields && w[l].fields[f] == v[l].fields[f] && f in w[r].fields
    requires w[r].fields[f] == v[r].fields[f]
    requires NewMirrors(n0, w, v[l].fields[f], v[r].fields[f])
    requires |path| > 1 && path[0] == f && At(w, l, path).Some? && n0 <= At(w, l, path).value
    ensures At(w, r, path).Some? && Mirrors(w[At(w, l, path).value], w[At(w, r, path).value])
  {
    assert path == [f] + path[1..];
    AtField(w, l, f, path[1..]);
    AtField(w, r, f, path[1..]);
  }

  /** A path from `l` to a node added below field `f` starts with `f`. */
  lemma AddedBelow(v: Values, w: Values, l: nat, f: nat, path: seq<nat>)
    requires Ordered(v) && UniqueParent(v) && l < |v| && f in v[l].fields && Framed(v, w, Desc(v, v[l].fields[f]))
    requires path != [] && At(w, l, path).Some? && |v| <= At(w, l, path).value
    ensures path[0] == f && path[1..] != []
  {
    var i := LastOld(v, w, l, path);
    var y := At(v, l, path[..i]).value;
    assert v[y] != w[y];
    BelowFieldStarts(v, l, f, path[..i], y);
    assert path[..i][0] == path[0];
  }

  /** A path to a node below field `f` starts with `f`. */
  lemma BelowFieldStarts(v: Values, l: nat, f: nat, h: seq<nat>, y: nat)
    requires Ordered(v) && UniqueParent(v) && l < |v| && f in v[l].fields
    requires At(v, l, h) == Some(y) && y in Desc(v, v[l].fields[f])
    ensures h != [] && h[0] == f
  {
    var child := v[l].fields[f];
    var q :| At(v, child, q) == Some(y);
    AtAbove(v, child, q);
    if h != [] {
      assert h == [h[0]] + h[1..];
      AtField(v, l, h[0], h[1..]);
      if h[0] != f {
        SiblingsDisjoint(v, l, f, h[0], q, h[1..]);
      }
    }
  }

  /** The place where a path leaves the old arena. */
  lemma {:induction false} LastOld(v: Values, w: Values, n: nat, path: seq<nat>) returns (i: nat)
    requires Ordered(v) && Ordered(w) && Extends(v, w) && n < |v|
    requires At(w, n, path).Some? && |v| <= At(w, n, path).value
    ensures i < |path| && At(v, n, path[..i]).Some?
    ensures var y := At(v, n, path[..i]).value;
            path[i] in w[y].fields && |v| <= w[y].fields[path[i]] && path[i] !in v[y].fields
    decreases |path|
  {
    var f := path[0];
    if f in v[n].fields {
      var j := LastOld(v, w, v[n].fields[f], path[1..]);
      i := j + 1;
      assert path[..i] == [f] + path[1..][..j];
      AtField(v, n, f, path[1..][..j]);
    } else {
      i := 0;
      assert path[..0] == [];
    }
  }

  // ---------------------------------------------------------------- reading the contract

  /** After a merge the places `l.path` and `r.path` alias, for every path of `r`'s old tree. */
  lemma MergedAliases(v0: Values, p0: seq<nat>, v: Values, p: seq<nat>, l: nat, r: nat, path: seq<nat>)
    requires Ordered(v0) && l < |v0| && r < |v0| && Framed(v0, v, Desc(v0, l)) && Desc(v0, l) !! Desc(v0, r)
    requires |p0| == |v0| && Acyclic(p0) && Merged(v0, p0, v, p, l, r) && At(v0, r, path).Some?
    ensures At(v, r, path) == At(v0, r, path) && At(v, l, path).Some?
    ensures Same(p, At(v, l, path).value, At(v, r, path).value)
  {
    DescClosed(v0, r);
    AtUnchanged(v0, v, Desc(v0, l), Desc(v0, r), r, path);
    var x, y := At(v, l, path).value, At(v, r, path).value;
    forall c | |c| == |p| && Respects(c, p) ensures c[x] == c[y] {
      assert Aligned(c, v, l, r);
    }
    SameIffNeverSeparated(p, x, y);
  }

  /** A merge never separates what aliased before. */
  lemma MergedKeeps(v0: Values, p0: seq<nat>, v: Values, p: seq<nat>, l: nat, r: nat, x: nat, y: nat)
    requires Ordered(v) && |p0| <= |v| && Merged(v0, p0, v, p, l, r) && Same(p0, x, y)
    ensures Same(p, x, y)
  {
    forall c | |c| == |p| && Respects(c, p) ensures c[x] == c[y] {
      assert Respects(c, p0);
      RespectsRoot(c, p0, x);
      RespectsRoot(c, p0, y);
    }
    SameIffNeverSeparated(p, x, y);
  }

  /** The paths below `l` afterwards are those it had and those `r` had. */
  lemma MergedPaths(v0: Values, p0: seq<nat>, v: Values, p: seq<nat>, l: nat, r: nat, path: seq<nat>)
    requires Ordered(v0) && l < |v0| && r < |v0| && Framed(v0, v, Desc(v0, l)) && Desc(v0, l) !! Desc(v0, r)
    requires Merged(v0, p0, v, p, l, r)
    ensures At(v, l, path).Some? <==> At(v0, l, path).Some? || At(v0, r, path).Some?
    ensures At(v, r, path) == At(v0, r, path)
  {
    DescClosed(v0, r);
    AtUnchanged(v0, v, Desc(v0, l), Desc(v0, r), r, path);
    AtOld(v0, v, l, path);
    AtExtends(v0, v, l, path);
  }
}
