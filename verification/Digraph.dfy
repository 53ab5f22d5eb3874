/** Finite directed graphs given by successor sets, with reachability by explicit paths. */
module Digraph {

  type Graph = seq<set<nat>>

  /** Every edge targets an existing block. */
  ghost predicate WellFormed(g: Graph) {
    forall u, v :: 0 <= u < |g| && v in g[u] ==> v < |g|
  }

  ghost predicate Edge(g: Graph, u: nat, v: nat) {
    u < |g| && v in g[u]
  }

  ghost predicate IsPath(g: Graph, p: seq<nat>) {
    && |p| > 0
    && (forall i :: 0 <= i < |p| ==> p[i] < |g|)
    && (forall i, j :: 0 <= i && j == i + 1 && j < |p| ==> Edge(g, p[i], p[j]))
  }

  ghost predicate Reaches(g: Graph, u: nat, v: nat) {
    exists p :: IsPath(g, p) && p[0] == u && p[|p| - 1] == v
  }

  ghost predicate Mutual(g: Graph, u: nat, v: nat) {
    Reaches(g, u, v) && Reaches(g, v, u)
  }

  /** No edge of the graph leaves `s`. */
  ghost predicate Closed(g: Graph, s: set<nat>) {
    forall u, v :: u in s && Edge(g, u, v) ==> v in s
  }

  lemma ReachesSelf(g: Graph, u: nat)
    requires u < |g|
    ensures Reaches(g, u, u)
  {
    assert IsPath(g, [u]);
  }

  lemma ReachesEdge(g: Graph, u: nat, v: nat)
    requires WellFormed(g) && Edge(g, u, v)
    ensures Reaches(g, u, v)
  {
    assert IsPath(g, [u, v]);
  }

  lemma ReachesTrans(g: Graph, u: nat, v: nat, w: nat)
    requires Reaches(g, u, v) && Reaches(g, v, w)
    ensures Reaches(g, u, w)
  {
    var p :| IsPath(g, p) && p[0] == u && p[|p| - 1] == v;
    var q :| IsPath(g, q) && q[0] == v && q[|q| - 1] == w;
    var r := p + q[1..];
    forall i, j | 0 <= i && j == i + 1 && j < |r| ensures Edge(g, r[i], r[j]) {
      if j >= |p| {
        assert r[j] == q[j - |p| + 1];
        assert r[i] == q[i - |p| + 1];
      }
    }
    assert IsPath(g, r);
  }

  /** A closed set keeps everything its members reach. */
  lemma {:induction false} ClosedKeepsPaths(g: Graph, s: set<nat>, p: seq<nat>)
    requires Closed(g, s) && IsPath(g, p) && p[0] in s
    ensures p[|p| - 1] in s
    decreases |p|
  {
    if |p| > 1 {
      var q := p[..|p| - 1];
      assert IsPath(g, q) by {
        forall i, j | 0 <= i && j == i + 1 && j < |q| ensures Edge(g, q[i], q[j]) {
          assert Edge(g, p[i], p[j]);
        }
      }
      ClosedKeepsPaths(g, s, q);
      assert Edge(g, p[|p| - 2], p[|p| - 1]);
    }
  }

  lemma ClosedKeepsReach(g: Graph, s: set<nat>, u: nat, v: nat)
    requires Closed(g, s) && u in s && Reaches(g, u, v)
    ensures v in s
  {
    var p :| IsPath(g, p) && p[0] == u && p[|p| - 1] == v;
    ClosedKeepsPaths(g, s, p);
  }

  /** Reachability as a finite relation, for invariants that only pass facts along. */
  type Relation = set<(nat, nat)>

  ghost function ReachRelation(g: Graph): (r: Relation) {
    set u, v | 0 <= u < |g| && 0 <= v < |g| && Reaches(g, u, v) :: (u, v)
  }

  ghost predicate Transitive(r: Relation) {
    forall u, v, w :: (u, v) in r && (v, w) in r ==> (u, w) in r
  }

  /** Members of `s` are related only to members of `s`. */
  ghost predicate Keeps(r: Relation, s: set<nat>) {
    forall u, v :: u in s && (u, v) in r ==> v in s
  }

  /** The laws that determine reachability: it contains the edges, is reflexive and
      transitive, and no edge-closed set is left. */
  ghost predicate ReachLaws(g: Graph, r: Relation) {
    && (forall u :: 0 <= u < |g| ==> (u, u) in r)
    && (forall u: nat, v: nat :: Edge(g, u, v) ==> (u, v) in r)
    && (forall c {:trigger Closed(g, c)} :: Closed(g, c) ==> Keeps(r, c))
    && (forall u, v {:trigger Composes(r, u, v)} :: (u, v) in r ==> Composes(r, u, v))
  }

  /** `(u, v)` composes with the pairs that follow and precede it. */
  ghost predicate Composes(r: Relation, u: nat, v: nat) {
    && (forall w :: (v, w) in r ==> (u, w) in r)
    && (forall t :: (t, u) in r ==> (t, v) in r)
  }

  lemma LawsCompose(g: Graph, r: Relation)
    requires ReachLaws(g, r)
    ensures Transitive(r)
  {
    forall u, v | (u, v) in r ensures forall w :: (v, w) in r ==> (u, w) in r {
      assert Composes(r, u, v);
    }
  }

  lemma RelationLaws(g: Graph)
    requires WellFormed(g)
    ensures ReachLaws(g, ReachRelation(g))
  {
    var r := ReachRelation(g);
    forall u | 0 <= u < |g| ensures (u, u) in r {
      ReachesSelf(g, u);
    }
    forall u: nat, v: nat | Edge(g, u, v) ensures (u, v) in r {
      ReachesEdge(g, u, v);
    }
    forall c | Closed(g, c) ensures Keeps(r, c) {
      forall u, v | u in c && (u, v) in r ensures v in c {
        ClosedKeepsReach(g, c, u, v);
      }
    }
    forall u, v | (u, v) in r ensures Composes(r, u, v) {
      forall w | (v, w) in r ensures (u, w) in r {
        ReachesTrans(g, u, v, w);
      }
      forall t | (t, u) in r ensures (t, v) in r {
        ReachesTrans(g, t, u, v);
      }
    }
  }

  /** The blocks reachable from `u`. */
  ghost function ReachSet(g: Graph, u: nat): (r: set<nat>) {
    set v | 0 <= v < |g| && Reaches(g, u, v)
  }

  lemma ReachSetClosed(g: Graph, u: nat)
    requires WellFormed(g)
    ensures Closed(g, ReachSet(g, u))
  {
    forall v, w | v in ReachSet(g, u) && Edge(g, v, w) ensures w in ReachSet(g, u) {
      ReachesEdge(g, v, w);
      ReachesTrans(g, u, v, w);
    }
  }
}
