/** The parent array `alias_set` as a union-find forest over any acyclic array of parents,
    not only the flat ones that `union_merge` leaves. */
module UnionFind {

  /** Ranks that drop along every proper parent link. */
  ghost predicate RankedBy(p: seq<nat>, rank: seq<nat>) {
    && |rank| == |p|
    && (forall i :: 0 <= i < |p| ==> p[i] < |p| && (p[i] != i ==> rank[p[i]] < rank[i]))
  }

  ghost predicate Acyclic(p: seq<nat>) {
    exists rank :: RankedBy(p, rank)
  }

  ghost predicate Flat(p: seq<nat>) {
    forall i :: 0 <= i < |p| ==> p[i] < |p| && p[p[i]] == p[i]
  }

  ghost function RankOf(p: seq<nat>): (rank: seq<nat>)
    requires Acyclic(p)
    ensures RankedBy(p, rank)
  {
    var rank :| RankedBy(p, rank);
    rank
  }

  /** The element at which `union_find` stops. */
  ghost function Root(p: seq<nat>, e: nat): (r: nat)
    requires Acyclic(p) && e < |p|
    ensures r < |p| && p[r] == r
    decreases RankOf(p)[e]
  {
    if p[e] == e then e else Root(p, p[e])
  }

  /** The elements that `union_find` visits from `e`. */
  ghost function Visits(p: seq<nat>, e: nat): (c: set<nat>)
    requires Acyclic(p) && e < |p|
    ensures e in c && Root(p, e) in c
    decreases RankOf(p)[e]
  {
    if p[e] == e then {e} else {e} + Visits(p, p[e])
  }

  ghost predicate Same(p: seq<nat>, x: nat, y: nat) {
    Acyclic(p) && x < |p| && y < |p| && Root(p, x) == Root(p, y)
  }

  lemma FlatIsAcyclic(p: seq<nat>)
    requires Flat(p)
    ensures Acyclic(p)
    ensures forall x :: 0 <= x < |p| ==> Root(p, x) == p[x]
  {
    var rank := seq(|p|, i requires 0 <= i < |p| => if p[i] == i then 0 else 1);
    assert RankedBy(p, rank);
  }

  // ---------------------------------------------------------------- find and merge

  method UnionFindRoot(p: seq<nat>, e: nat) returns (r: nat)
    requires Acyclic(p) && e < |p|
    ensures r == Root(p, e)
  {
    r := e;
    while p[r] != r
      invariant r < |p| && Root(p, r) == Root(p, e)
      decreases RankOf(p)[r]
    {
      r := p[r];
    }
  }

  method UnionIsSame(p: seq<nat>, e1: nat, e2: nat) returns (same: bool)
    requires Acyclic(p) && e1 < |p| && e2 < |p|
    ensures same <==> Same(p, e1, e2)
  {
    var f1 := UnionFindRoot(p, e1);
    var f2 := UnionFindRoot(p, e2);
    same := f1 == f2;
  }

  /** The root of `x` once the classes of `e1` and `e2` are one, led by the smaller root. */
  ghost function JoinedRoot(p: seq<nat>, e1: nat, e2: nat, x: nat): (r: nat)
    requires Acyclic(p) && e1 < |p| && e2 < |p| && x < |p|
  {
    var f1, f2 := Root(p, e1), Root(p, e2);
    if Root(p, x) == f1 || Root(p, x) == f2 then (if f1 < f2 then f1 else f2) else Root(p, x)
  }

  method UnionMerge(p: seq<nat>, e1: nat, e2: nat) returns (q: seq<nat>)
    requires Acyclic(p) && e1 < |p| && e2 < |p|
    ensures |q| == |p| && Flat(q)
    ensures forall x :: 0 <= x < |p| ==> q[x] == JoinedRoot(p, e1, e2, x)
  {
    var f1 := UnionFindRoot(p, e1);
    var f2 := UnionFindRoot(p, e2);
    q := p;
    if f1 < f2 {
      q := q[f2 := f1];
      LinkRoots(p, f2, f1);
    }
    if f1 > f2 {
      q := q[f1 := f2];
      LinkRoots(p, f1, f2);
    }
    assert forall x :: 0 <= x < |p| ==> Root(q, x) == JoinedRoot(p, e1, e2, x);
    for member := 0 to |q|
      invariant |q| == |p| && Acyclic(q)
      invariant forall x :: 0 <= x < |q| ==> Root(q, x) == JoinedRoot(p, e1, e2, x)
      invariant forall x :: 0 <= x < member ==> q[x] == JoinedRoot(p, e1, e2, x)
    {
      var r := UnionFindRoot(q, q[member]);
      CompressKeepsRoots(q, member, r);
      q := q[member := r];
    }
  }

  /** A root linked below another root joins its class. */
  lemma LinkRoots(p: seq<nat>, f: nat, g: nat)
    requires Acyclic(p) && f < |p| && g < |p| && f != g && p[f] == f && p[g] == g
    ensures Acyclic(p[f := g])
    ensures forall x :: 0 <= x < |p| ==> Root(p[f := g], x) == if Root(p, x) == f then g else Root(p, x)
  {
    LinkAcyclic(p, f, g);
    forall x | 0 <= x < |p| ensures Root(p[f := g], x) == if Root(p, x) == f then g else Root(p, x) {
      LinkRoot(p, f, g, x);
      VisitsRoot(p, f, x);
    }
  }

  /** A root is visited from `x` exactly when it is the root of `x`. */
  lemma {:induction false} VisitsRoot(p: seq<nat>, f: nat, x: nat)
    requires Acyclic(p) && f < |p| && x < |p| && p[f] == f
    ensures f in Visits(p, x) <==> Root(p, x) == f
    decreases RankOf(p)[x]
  {
    if p[x] != x {
      VisitsRoot(p, f, p[x]);
    }
  }

  lemma CompressKeepsRoots(p: seq<nat>, m: nat, r: nat)
    requires Acyclic(p) && m < |p| && r == Root(p, p[m])
    ensures Acyclic(p[m := r])
    ensures forall x :: 0 <= x < |p| ==> Root(p[m := r], x) == Root(p, x)
  {
    if p[m] == m {
      assert p[m := r] == p;
    } else {
      RootVisitsItself(p, r);
      LinkAcyclic(p, m, r);
      forall x | 0 <= x < |p| ensures Root(p[m := r], x) == Root(p, x) {
        LinkRoot(p, m, r, x);
        VisitSharesRoot(p, x, m);
      }
    }
  }

  lemma RootVisitsItself(p: seq<nat>, r: nat)
    requires Acyclic(p) && r < |p| && p[r] == r
    ensures Visits(p, r) == {r}
  {
  }

  lemma {:induction false} VisitSharesRoot(p: seq<nat>, x: nat, m: nat)
    requires Acyclic(p) && x < |p|
    ensures m in Visits(p, x) ==> m < |p| && Root(p, m) == Root(p, x)
    decreases RankOf(p)[x]
  {
    if p[x] != x {
      VisitSharesRoot(p, p[x], m);
    }
  }

  // ---------------------------------------------------------------- arbitrary links

  /** Overwriting one parent (`alias_set[lv] = rv`, a discriminant link) keeps the array
      acyclic exactly when the search from `rv` does not pass `lv`. */
  lemma LinkAcyclic(p: seq<nat>, lv: nat, rv: nat)
    requires Acyclic(p) && lv < |p| && rv < |p|
    ensures Acyclic(p[lv := rv]) <==> lv == rv || lv !in Visits(p, rv)
  {
    var q := p[lv := rv];
    var rank := RankOf(p);
    if lv == rv {
      assert RankedBy(q, rank);
    } else if lv !in Visits(p, rv) {
      var rank' := seq(|p|, i requires 0 <= i < |p| => rank[i] + if lv in Visits(p, i) then rank[rv] + 1 else 0);
      assert RankedBy(q, rank');
    } else if Acyclic(q) {
      assert q[lv] == rv;
      LoopHasNoRank(p, lv, rv, rv, RankOf(q));
    }
  }

  /** Up to `lv` the search runs as before, so ranks would drop around the loop. */
  lemma {:induction false} LoopHasNoRank(p: seq<nat>, lv: nat, rv: nat, x: nat, rank: seq<nat>)
    requires Acyclic(p) && lv < |p| && rv < |p| && x < |p| && lv in Visits(p, x)
    requires RankedBy(p[lv := rv], rank)
    ensures rank[lv] <= rank[x]
    decreases RankOf(p)[x]
  {
    if x != lv {
      LoopHasNoRank(p, lv, rv, p[x], rank);
      assert p[lv := rv][x] == p[x];
    }
  }

  lemma {:induction false} LinkMisses(p: seq<nat>, lv: nat, rv: nat, x: nat)
    requires Acyclic(p) && lv < |p| && rv < |p| && x < |p| && lv !in Visits(p, x)
    requires Acyclic(p[lv := rv])
    ensures Root(p[lv := rv], x) == Root(p, x)
    decreases RankOf(p)[x]
  {
    if p[x] != x {
      LinkMisses(p, lv, rv, p[x]);
    }
  }

  /** The class of everything that passed `lv` moves to the class of `rv`; nothing else moves. */
  lemma {:induction false} LinkRoot(p: seq<nat>, lv: nat, rv: nat, x: nat)
    requires Acyclic(p) && lv < |p| && rv < |p| && x < |p| && lv !in Visits(p, rv)
    requires Acyclic(p[lv := rv])
    ensures Root(p[lv := rv], x) == if lv in Visits(p, x) then Root(p, rv) else Root(p, x)
    decreases RankOf(p)[x]
  {
    if x == lv {
      LinkMisses(p, lv, rv, rv);
    } else if p[x] != x {
      LinkRoot(p, lv, rv, p[x]);
    }
  }

  /** On a flat array the search from `rv` passes only `rv` and its root. */
  lemma FlatLink(p: seq<nat>, lv: nat, rv: nat)
    requires Flat(p) && lv < |p| && rv < |p|
    ensures Acyclic(p[lv := rv]) <==> lv == rv || lv != p[rv]
  {
    FlatIsAcyclic(p);
    LinkAcyclic(p, lv, rv);
    if p[rv] != rv {
      RootVisitsItself(p, p[rv]);
    }
  }

  // ---------------------------------------------------------------- partitions as labellings

  /** `c` gives equal labels to linked elements. The labellings that respect an array
      determine its partition. */
  ghost predicate Respects(c: seq<nat>, p: seq<nat>) {
    |c| >= |p| && forall x :: 0 <= x < |p| ==> p[x] < |p| && c[x] == c[p[x]]
  }

  lemma {:induction false} RespectsRoot(c: seq<nat>, p: seq<nat>, x: nat)
    requires Acyclic(p) && Respects(c, p) && x < |p|
    ensures c[x] == c[Root(p, x)]
    decreases RankOf(p)[x]
  {
    if p[x] != x {
      RespectsRoot(c, p, p[x]);
    }
  }

  /** Two elements share a class exactly when no respecting labelling separates them. */
  lemma SameIffNeverSeparated(p: seq<nat>, x: nat, y: nat)
    requires Acyclic(p) && x < |p| && y < |p|
    ensures Same(p, x, y) <==> forall c :: |c| == |p| && Respects(c, p) ==> c[x] == c[y]
  {
    if Same(p, x, y) {
      forall c | |c| == |p| && Respects(c, p) ensures c[x] == c[y] {
        RespectsRoot(c, p, x);
        RespectsRoot(c, p, y);
      }
    } else {
      var c := seq(|p|, i requires 0 <= i < |p| => Root(p, i));
      assert Respects(c, p);
    }
  }

  /** `union_merge` adds exactly one pair to the partition: the new classes are the least
      that contain the old ones and put `e1` with `e2`. */
  lemma MergeIsLeast(p: seq<nat>, e1: nat, e2: nat, q: seq<nat>, c: seq<nat>)
    requires Acyclic(p) && e1 < |p| && e2 < |p| && |q| == |p| && |c| >= |p|
    requires forall x :: 0 <= x < |p| ==> q[x] == JoinedRoot(p, e1, e2, x)
    ensures Respects(c, q) <==> Respects(c, p) && c[e1] == c[e2]
  {
    if Respects(c, p) && c[e1] == c[e2] {
      RespectsRoot(c, p, e1);
      RespectsRoot(c, p, e2);
      forall x | 0 <= x < |p| ensures c[x] == c[q[x]] {
        RespectsRoot(c, p, x);
      }
    }
    if Respects(c, q) {
      forall x | 0 <= x < |p| ensures c[x] == c[p[x]] {
        assert c[x] == c[q[x]] && c[p[x]] == c[q[p[x]]] && q[x] == q[p[x]];
      }
      assert c[e1] == c[q[e1]] && c[e2] == c[q[e2]];
    }
  }
}
