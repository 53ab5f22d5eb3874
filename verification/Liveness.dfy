/** SafeDrop's liveness: searching for dead values through alias classes and fields, killing
    values at drops, and reviving them at assignments. `births[i]` is `values[i].birth`. */
module Liveness {
  import opened Wrappers
  import opened Digraph
  import opened UnionFind
  import opened Arena

  type Span = nat

  /** The part of the analysis state that drops and assignments change. */
  datatype Life = Life(births: seq<int>, deadRecord: seq<bool>, dfBugs: map<nat, Span>)

  ghost predicate Alive(births: seq<int>, n: nat)
    requires n < |births|
  {
    births[n] > -1
  }

  predicate IsPtr(node: ValueNode) {
    node.kind == RawPtr || node.kind == Ref
  }

  /** Fields stay inside the arena. */
  ghost predicate FieldsInside(v: Values) {
    forall i, f :: 0 <= i < |v| && f in v[i].fields ==> v[i].fields[f] < |v|
  }

  /** The edges that the searches follow: to other members of the alias class and to fields. */
  ghost function Links(v: Values, p: seq<nat>): (g: Graph) {
    seq(|v|, n requires 0 <= n < |v| => LinksOf(v, p, n))
  }

  ghost function LinksOf(v: Values, p: seq<nat>, n: nat): (s: set<nat>)
    requires n < |v|
  {
    set m | 0 <= m < |v| && Linked(v, p, n, m)
  }

  ghost predicate Linked(v: Values, p: seq<nat>, n: nat, m: nat)
    requires n < |v|
  {
    (m != n && Same(p, n, m)) || IsField(v, n, m)
  }

  ghost predicate IsField(v: Values, n: nat, m: nat)
    requires n < |v|
  {
    exists f :: f in v[n].fields && v[n].fields[f] == m
  }

  lemma LinkIsEdge(v: Values, p: seq<nat>, n: nat, m: nat)
    requires n < |v| && m < |v| && Linked(v, p, n, m)
    ensures Edge(Links(v, p), n, m) && WellFormed(Links(v, p)) && Reaches(Links(v, p), n, m)
  {
    var g := Links(v, p);
    assert WellFormed(g);
    ReachesEdge(g, n, m);
  }

  // ---------------------------------------------------------------- searching for dead values

  /** What the search looks for: a dead value, which must be a pointer in a dangling check. */
  ghost predicate Target(v: Values, births: seq<int>, dangling: bool, n: nat)
    requires n < |v| == |births|
  {
    !Alive(births, n) && (dangling ==> IsPtr(v[n]))
  }

  ghost predicate FindsTarget(v: Values, p: seq<nat>, births: seq<int>, dangling: bool, n: nat)
    requires |v| == |births|
  {
    exists m :: 0 <= m < |v| && Reaches(Links(v, p), n, m) && Target(v, births, dangling, m)
  }

  /** The visits recorded since `before` found nothing and left nothing unvisited. */
  ghost predicate Explored(v: Values, p: seq<nat>, births: seq<int>, dangling: bool, before: set<nat>, after: set<nat>)
    requires |v| == |births|
  {
    && before <= after
    && (forall n :: n in after ==> n < |v|)
    && (forall n :: n in after && n !in before ==> Settled(v, p, births, dangling, n, after))
  }

  ghost predicate Settled(v: Values, p: seq<nat>, births: seq<int>, dangling: bool, n: nat, after: set<nat>)
    requires n < |v| == |births|
  {
    !Target(v, births, dangling, n) && LinksOf(v, p, n) <= after
  }

  ghost function Unvisited(v: Values, record: set<nat>): set<nat> {
    set n | 0 <= n < |v| && n !in record
  }

  lemma UnvisitedShrinks(v: Values, a: set<nat>, b: set<nat>)
    requires a <= b
    ensures Unvisited(v, b) <= Unvisited(v, a)
    ensures forall n :: n in b && n !in a && n < |v| ==> Unvisited(v, b) < Unvisited(v, a)
  {
    forall n | n in b && n !in a && n < |v| ensures Unvisited(v, b) < Unvisited(v, a) {
      assert n in Unvisited(v, a) && n !in Unvisited(v, b);
    }
  }

  /** `exist_dead`, with the shared visit record passed in and out. */
  method ExistDead(v: Values, p: seq<nat>, births: seq<int>, node: nat, record: set<nat>, dangling: bool)
    returns (found: bool, seen: set<nat>)
    requires |v| == |births| == |p| && Acyclic(p) && node !in record && forall n :: n in record ==> n < |v|
    ensures found ==> node < |v| && FindsTarget(v, p, births, dangling, node)
    ensures !found ==> Explored(v, p, births, dangling, record, seen) && (node < |v| ==> node in seen)
    decreases Unvisited(v, record), 0
  {
    seen := record;
    if node >= |v| {
      return false, seen;
    }
    if births[node] <= -1 && ((dangling && IsPtr(v[node])) || !dangling) {
      ReachesSelf(Links(v, p), node);
      return true, seen;
    }
    seen := seen + {node};
    UnvisitedShrinks(v, record, seen);
    found, seen := SearchClass(v, p, births, node, record, seen, dangling);
    if found {
      return;
    }
    UnvisitedShrinks(v, record, seen);
    found, seen := SearchFields(v, p, births, node, record, seen, dangling);
    if !found {
      forall m | m in LinksOf(v, p, node) ensures m in seen {
        if IsField(v, node, m) {
          var f :| f in v[node].fields && v[node].fields[f] == m;
        }
      }
    }
  }

  /** The loop over the alias class; `union_has_alias` only spares an idle loop. */
  method SearchClass(v: Values, p: seq<nat>, births: seq<int>, node: nat, ghost record: set<nat>, start: set<nat>,
                     dangling: bool)
    returns (found: bool, seen: set<nat>)
    requires |v| == |births| == |p| && Acyclic(p) && node < |v| && node !in record
    requires node in start && (forall n :: n in start ==> n < |v|)
    requires ExploredBut(v, p, births, dangling, record, start, node)
    ensures found ==> FindsTarget(v, p, births, dangling, node)
    ensures !found ==> start <= seen && ExploredBut(v, p, births, dangling, record, seen, node)
    ensures !found ==> forall m :: 0 <= m < |v| && Same(p, node, m) ==> m in seen
    decreases Unvisited(v, start), 1
  {
    seen := start;
    found := false;
    var hasAlias := UnionHasAlias(p, node);
    if !hasAlias {
      return;
    }
    var k := 0;
    while k < |p|
      invariant 0 <= k <= |p| && start <= seen
      invariant ExploredBut(v, p, births, dangling, record, seen, node)
      invariant forall m :: 0 <= m < k && Same(p, node, m) ==> m in seen
    {
      var same := UnionIsSame(p, k, node);
      if (k == node || same) && k !in seen {
        ghost var before := seen;
        UnvisitedShrinks(v, start, seen);
        found, seen := ExistDead(v, p, births, k, seen, dangling);
        if found {
          assert Same(p, node, k);
          FindsThrough(v, p, births, dangling, node, k);
          return;
        }
        ExploredMore(v, p, births, dangling, record, before, seen, node);
      }
      k := k + 1;
    }
  }

  /** The loop over the fields, in any order. */
  method SearchFields(v: Values, p: seq<nat>, births: seq<int>, node: nat, ghost record: set<nat>, start: set<nat>,
                      dangling: bool)
    returns (found: bool, seen: set<nat>)
    requires |v| == |births| == |p| && Acyclic(p) && node < |v| && node !in record
    requires node in start && (forall n :: n in start ==> n < |v|)
    requires ExploredBut(v, p, births, dangling, record, start, node)
    ensures found ==> FindsTarget(v, p, births, dangling, node)
    ensures !found ==> start <= seen && ExploredBut(v, p, births, dangling, record, seen, node)
    ensures !found ==> forall f :: f in v[node].fields && v[node].fields[f] < |v| ==> v[node].fields[f] in seen
    decreases Unvisited(v, start), 1
  {
    seen := start;
    found := false;
    var todo := v[node].fields.Keys;
    while todo != {}
      invariant todo <= v[node].fields.Keys && start <= seen
      invariant ExploredBut(v, p, births, dangling, record, seen, node)
      invariant forall f :: f in v[node].fields && f !in todo && v[node].fields[f] < |v| ==> v[node].fields[f] in seen
      decreases todo
    {
      var f :| f in todo;
      todo := todo - {f};
      var child := v[node].fields[f];
      if child !in seen {
        ghost var before := seen;
        UnvisitedShrinks(v, start, seen);
        found, seen := ExistDead(v, p, births, child, seen, dangling);
        if found {
          assert IsField(v, node, child);
          FindsThrough(v, p, births, dangling, node, child);
          return;
        }
        ExploredMore(v, p, births, dangling, record, before, seen, node);
      }
    }
  }

  /** As `Explored`, while `node` is still being visited. */
  ghost predicate ExploredBut(v: Values, p: seq<nat>, births: seq<int>, dangling: bool, before: set<nat>,
                              after: set<nat>, node: nat)
    requires |v| == |births|
  {
    && before <= after && node in after
    && (forall n :: n in after ==> n < |v|)
    && (forall n :: n in after && n !in before && n != node ==> Settled(v, p, births, dangling, n, after))
  }

  lemma ExploredMore(v: Values, p: seq<nat>, births: seq<int>, dangling: bool, record: set<nat>, before: set<nat>,
                     after: set<nat>, node: nat)
    requires |v| == |births|
    requires ExploredBut(v, p, births, dangling, record, before, node)
    requires Explored(v, p, births, dangling, before, after)
    ensures ExploredBut(v, p, births, dangling, record, after, node)
  {
    forall n | n in after && n !in record && n != node ensures Settled(v, p, births, dangling, n, after) {
      if n in before {
        assert Settled(v, p, births, dangling, n, before);
      }
    }
  }

  lemma FindsThrough(v: Values, p: seq<nat>, births: seq<int>, dangling: bool, n: nat, m: nat)
    requires |v| == |births| && n < |v| && m < |v| && (Linked(v, p, n, m) || n == m)
    requires FindsTarget(v, p, births, dangling, m)
    ensures FindsTarget(v, p, births, dangling, n)
  {
    var t :| 0 <= t < |v| && Reaches(Links(v, p), m, t) && Target(v, births, dangling, t);
    if n != m {
      LinkIsEdge(v, p, n, m);
      ReachesTrans(Links(v, p), n, m, t);
    }
  }

  method UnionHasAlias(p: seq<nat>, e: nat) returns (has: bool)
    requires Acyclic(p) && e < |p|
    ensures has <==> exists i :: 0 <= i < |p| && i != e && Same(p, e, i)
  {
    var i := 0;
    while i < |p|
      invariant 0 <= i <= |p|
      invariant forall k :: 0 <= k < i && k != e ==> !Same(p, e, k)
    {
      if i != e {
        var same := UnionIsSame(p, e, i);
        if same {
          return true;
        }
      }
      i := i + 1;
    }
    has := false;
  }

  /** Started with an empty record, the search answers exactly whether a dead value (a dead
      pointer, in a dangling check) can be reached: the shared record hides nothing. */
  method SearchDead(v: Values, p: seq<nat>, births: seq<int>, node: nat, dangling: bool) returns (found: bool)
    requires |v| == |births| == |p| && Acyclic(p)
    ensures found <==> node < |v| && FindsTarget(v, p, births, dangling, node)
  {
    var seen;
    found, seen := ExistDead(v, p, births, node, {}, dangling);
    if !found && node < |v| {
      assert Closed(Links(v, p), seen) by {
        forall a, b | a in seen && Edge(Links(v, p), a, b) ensures b in seen {
          assert Settled(v, p, births, dangling, a, seen);
        }
      }
      forall m | 0 <= m < |v| && Reaches(Links(v, p), node, m) ensures !Target(v, births, dangling, m) {
        ClosedKeepsReach(Links(v, p), seen, node, m);
        assert Settled(v, p, births, dangling, m, seen);
      }
    }
  }

  // ---------------------------------------------------------------- killing values

  predicate IsCorner(node: ValueNode) {
    node.kind == CornerCase
  }

  ghost predicate Sized(v: Values, s: Life) {
    |s.births| == |s.deadRecord| == |v|
  }

  /** Recorded between `s` and `t`. */
  ghost predicate Newly(s: Life, t: Life, i: nat) {
    i < |s.deadRecord| == |t.deadRecord| && t.deadRecord[i] && !s.deadRecord[i]
  }

  /** Exactly the newly recorded values that may be dropped and were born before `birth`
      die; nothing is revived, unrecorded or unreported. */
  ghost predicate Kills(v: Values, birth: int, s: Life, t: Life) {
    && Sized(v, s) && Sized(v, t)
    && (forall i :: 0 <= i < |v| ==> s.deadRecord[i] ==> t.deadRecord[i])
    && (forall i :: 0 <= i < |v| ==>
          t.births[i] == if Newly(s, t, i) && s.births[i] < birth && v[i].mayDrop then -1 else s.births[i])
    && (forall k :: k in s.dfBugs ==> k in t.dfBugs && t.dfBugs[k] == s.dfBugs[k])
  }

  predicate DiesWithAlias(node: ValueNode) {
    node.kind != Ref && !IsCorner(node)
  }

  /** Only values of `zone` that are no counted pointers are recorded. */
  ghost predicate RecordsIn(v: Values, zone: set<nat>, s: Life, t: Life)
    requires Sized(v, s) && Sized(v, t)
  {
    forall i :: 0 <= i < |v| && Newly(s, t, i) ==> i in zone && !IsCorner(v[i])
  }

  /** Recording a value that has a parent in the alias array records its aliases too,
      references and counted pointers aside. */
  ghost predicate AliasesFollow(v: Values, p: seq<nat>, s: Life, t: Life)
    requires Sized(v, s) && Sized(v, t) && |p| == |v|
  {
    forall i, j :: 0 <= i < |v| && 0 <= j < |v| && Newly(s, t, i) && p[i] != i && Same(p, i, j) && DiesWithAlias(v[j])
      ==> t.deadRecord[j]
  }

  /** Every new report names the local of a dead value of `zone`, at the place of the drop. */
  ghost predicate ReportsBacked(v: Values, span: Span, zone: set<nat>, s: Life, t: Life)
    requires Sized(v, t)
  {
    forall k :: k in t.dfBugs && k !in s.dfBugs ==> t.dfBugs[k] == span && DeadWithin(v, zone, t, k)
  }

  ghost predicate DeadWithin(v: Values, zone: set<nat>, t: Life, k: nat)
    requires Sized(v, t)
  {
    exists m :: 0 <= m < |v| && m in zone && v[m].local == k && t.births[m] <= -1
  }

  ghost predicate KillsIn(v: Values, p: seq<nat>, birth: int, zone: set<nat>, s: Life, t: Life)
    requires |p| == |v|
  {
    Kills(v, birth, s, t) && RecordsIn(v, zone, s, t) && AliasesFollow(v, p, s, t)
  }

  lemma KillsNothing(v: Values, p: seq<nat>, birth: int, zone: set<nat>, s: Life)
    requires Sized(v, s) && |p| == |v|
    ensures KillsIn(v, p, birth, zone, s, s)
  {
  }

  lemma NewlyTrans(v: Values, birth: int, s: Life, t: Life, u: Life)
    requires Kills(v, birth, s, t) && Kills(v, birth, t, u)
    ensures forall i :: 0 <= i < |v| ==> (Newly(s, u, i) <==> Newly(s, t, i) || Newly(t, u, i))
    ensures Kills(v, birth, s, u)
  {
  }

  lemma KillsTrans(v: Values, p: seq<nat>, birth: int, zone: set<nat>, s: Life, t: Life, u: Life)
    requires |p| == |v| && KillsIn(v, p, birth, zone, s, t) && KillsIn(v, p, birth, zone, t, u)
    ensures KillsIn(v, p, birth, zone, s, u)
  {
    NewlyTrans(v, birth, s, t, u);
  }

  lemma ReportsTrans(v: Values, span: Span, birth: int, zone: set<nat>, s: Life, t: Life, u: Life)
    requires Kills(v, birth, t, u) && ReportsBacked(v, span, zone, s, t) && ReportsBacked(v, span, zone, t, u)
    ensures ReportsBacked(v, span, zone, s, u)
  {
    forall k | k in u.dfBugs && k !in s.dfBugs ensures u.dfBugs[k] == span && DeadWithin(v, zone, u, k) {
      if k in t.dfBugs {
        var m :| 0 <= m < |v| && m in zone && v[m].local == k && t.births[m] <= -1;
        assert u.births[m] <= -1;
      }
    }
  }

  lemma ReportsWiden(v: Values, span: Span, a: set<nat>, b: set<nat>, s: Life, t: Life)
    requires Sized(v, t) && a <= b && ReportsBacked(v, span, a, s, t)
    ensures ReportsBacked(v, span, b, s, t)
  {
    forall k | k in t.dfBugs && k !in s.dfBugs ensures t.dfBugs[k] == span && DeadWithin(v, b, t, k) {
      assert DeadWithin(v, a, t, k);
    }
  }

  /** Holds the fields that a direct drop of `n` enters, and those of its members. */
  ghost predicate HoldsFields(v: Values, below: set<nat>, n: nat)
    requires n < |v|
  {
    && (forall m :: 0 <= m < |v| && EntersField(v, n, m) ==> m in below)
    && (forall i, m :: i in below && 0 <= i < |v| && 0 <= m < |v| && EntersField(v, i, m) ==> m in below)
  }

  /** The values that a drop of `n` can report: itself when it is dead, otherwise those below it;
      none when it only dies as an alias. */
  ghost function Reportable(births: seq<int>, n: nat, alias: bool, below: set<nat>): set<nat>
    requires n < |births|
  {
    if alias then {} else if Alive(births, n) then below else {n}
  }

  /** The frame of one kill: record `drop`, let aliases and fields follow, kill it last. */
  lemma KillsAround(v: Values, p: seq<nat>, span: Span, birth: int, zone: set<nat>, reported: set<nat>, drop: nat,
                    s: Life, t: Life,
                    u: Life)
    requires |p| == |v| && Sized(v, s) && drop < |v| && drop in zone && !s.deadRecord[drop] && !IsCorner(v[drop])
    requires KillsIn(v, p, birth, zone, s.(deadRecord := s.deadRecord[drop := true]), t)
    requires ReportsBacked(v, span, reported, s, t)
    requires p[drop] != drop ==> ClassRecorded(v, p, drop, t)
    requires u == t.(births := if t.births[drop] < birth && v[drop].mayDrop then t.births[drop := -1] else t.births)
    ensures KillsIn(v, p, birth, zone, s, u) && u.deadRecord[drop] && ReportsBacked(v, span, reported, s, u)
  {
    var r := s.(deadRecord := s.deadRecord[drop := true]);
    assert r.deadRecord[drop] && t.deadRecord[drop] && t.births[drop] == s.births[drop];
    assert forall i :: 0 <= i < |v| ==> (Newly(s, u, i) <==> i == drop || Newly(r, t, i));
    forall i, j | 0 <= i < |v| && 0 <= j < |v| && Newly(s, u, i) && p[i] != i && Same(p, i, j) && DiesWithAlias(v[j])
      ensures u.deadRecord[j]
    {
      if i != drop {
        assert Newly(r, t, i);
      }
    }
    forall k | k in u.dfBugs && k !in s.dfBugs ensures u.dfBugs[k] == span && DeadWithin(v, reported, u, k) {
      var m :| 0 <= m < |v| && m in reported && v[m].local == k && t.births[m] <= -1;
      assert u.births[m] <= -1;
    }
  }

  ghost predicate ClassRecorded(v: Values, p: seq<nat>, drop: nat, t: Life)
    requires Sized(v, t)
  {
    forall j :: 0 <= j < |v| && Same(p, drop, j) && DiesWithAlias(v[j]) ==> t.deadRecord[j]
  }

  /** A direct drop of `n` enters its field `m`: all but the parts of a tuple that need no drop. */
  ghost predicate EntersField(v: Values, n: nat, m: nat)
    requires n < |v| && m < |v|
  {
    IsField(v, n, m) && !IsCorner(v[n]) && !(v[n].kind == Tuple && !v[m].needDrop)
  }

  /** A kill of `n` reaches its alias `m`, from a value that has a parent in the alias array and to
      any but references. */
  ghost predicate ReachesAlias(v: Values, p: seq<nat>, n: nat, m: nat)
    requires n < |v| == |p| && m < |v|
  {
    m != n && !IsCorner(v[n]) && p[n] != n && Same(p, n, m) && v[m].kind != Ref
  }

  /** Direct drops stay in `direct`, and kills in `zone`. */
  ghost predicate KillsStay(v: Values, p: seq<nat>, direct: set<nat>, zone: set<nat>)
    requires |p| == |v|
  {
    && direct <= zone
    && (forall n, m :: n in direct && 0 <= n < |v| && 0 <= m < |v| && EntersField(v, n, m) ==> m in direct)
    && (forall n, m :: n in zone && 0 <= n < |v| && 0 <= m < |v| && ReachesAlias(v, p, n, m) ==> m in zone)
  }

  /** The least such sets for a drop of `node`. */
  ghost function DirectZone(v: Values, p: seq<nat>, node: nat): set<nat>
    requires |p| == |v|
  {
    set x | 0 <= x < |v| && InEveryDirect(v, p, node, x)
  }

  ghost predicate InEveryDirect(v: Values, p: seq<nat>, node: nat, x: nat)
    requires |p| == |v|
  {
    forall direct, zone :: KillsStay(v, p, direct, zone) && node in direct ==> x in direct
  }

  ghost function KillZone(v: Values, p: seq<nat>, node: nat): set<nat>
    requires |p| == |v|
  {
    set x | 0 <= x < |v| && InEveryZone(v, p, node, x)
  }

  ghost predicate InEveryZone(v: Values, p: seq<nat>, node: nat, x: nat)
    requires |p| == |v|
  {
    forall direct, zone :: KillsStay(v, p, direct, zone) && node in direct ==> x in zone
  }

  lemma LeastStays(v: Values, p: seq<nat>, node: nat)
    requires |p| == |v| && node < |v|
    ensures KillsStay(v, p, DirectZone(v, p, node), KillZone(v, p, node)) && node in DirectZone(v, p, node)
  {
    forall x | x in DirectZone(v, p, node) ensures x in KillZone(v, p, node) {
      forall direct, zone | KillsStay(v, p, direct, zone) && node in direct ensures x in zone {
        assert x in direct;
      }
    }
  }

  /** No direct drop or kill goes from outside `shelter` into it. */
  ghost predicate Sheltered(v: Values, p: seq<nat>, shelter: set<nat>)
    requires |p| == |v|
  {
    forall n, m :: 0 <= n < |v| && 0 <= m < |v| && n !in shelter && m in shelter ==>
      !EntersField(v, n, m) && !ReachesAlias(v, p, n, m)
  }

  lemma ShelteredOutside(v: Values, p: seq<nat>, node: nat, shelter: set<nat>)
    requires |p| == |v| && node < |v| && node !in shelter && Sheltered(v, p, shelter)
    ensures KillZone(v, p, node) !! shelter
  {
    var rest := set x | 0 <= x < |v| && x !in shelter;
    assert KillsStay(v, p, rest, rest);
  }

  lemma AliasInZone(v: Values, p: seq<nat>, direct: set<nat>, zone: set<nat>, n: nat, m: nat)
    requires |p| == |v| && n < |v| && m < |v| && n in zone && KillsStay(v, p, direct, zone) && ReachesAlias(v, p, n, m)
    ensures m in zone
  {
  }

  /** The fields of a dropped value are recorded or reported, except untouched tuple parts
      and counted pointers. */
  ghost predicate FieldsFollow(v: Values, drop: nat, t: Life)
    requires Sized(v, t) && drop < |v|
  {
    forall f :: f in v[drop].fields && v[drop].fields[f] < |v| ==> FieldDone(v, drop, v[drop].fields[f], t)
  }

  ghost predicate FieldDone(v: Values, drop: nat, child: nat, t: Life)
    requires Sized(v, t) && drop < |v| && child < |v|
  {
    || (v[drop].kind == Tuple && !v[child].needDrop) || IsCorner(v[child])
    || t.deadRecord[child] || v[child].local in t.dfBugs
  }

  /** Another member of the class that would die with it. */
  ghost predicate OtherAlias(v: Values, p: seq<nat>, n: nat, j: nat)
    requires j < |v|
  {
    j != n && Same(p, n, j) && DiesWithAlias(v[j])
  }

  class SafeDrop {
    var values: Values
    var aliasSet: seq<nat>
    var births: seq<int>
    var deadRecord: seq<bool>
    var dfBugs: map<nat, Span>
    var uafBugs: set<Span>

    ghost function Snap(): Life
      reads this
    {
      Life(births, deadRecord, dfBugs)
    }

    ghost predicate Valid()
      reads this
    {
      Sized(values, Snap()) && |aliasSet| == |values| && Acyclic(aliasSet) && FieldsInside(values)
    }

    /** `uaf_check`: reports a use exactly when a droppable value, other than a bare pointer
        named by its own local outside a call, reaches a dead value. */
    method UafCheck(node: nat, span: Span, local: nat, isFuncCall: bool)
      requires Valid() && node < |values|
      modifies this`uafBugs
      ensures uafBugs == old(uafBugs) +
        (if values[node].mayDrop && (!IsPtr(values[node]) || values[node].local != local || isFuncCall)
            && FindsTarget(values, aliasSet, births, false, node) then {span} else {})
    {
      if values[node].mayDrop && (!IsPtr(values[node]) || values[node].local != local || isFuncCall) {
        var found := SearchDead(values, aliasSet, births, node, false);
        if found && span !in uafBugs {
          uafBugs := uafBugs + {span};
        }
      }
    }

    /** `is_dangling`: for the return place any dead value counts, otherwise only pointers. */
    method IsDangling(local: nat) returns (found: bool)
      requires Valid() && local < |values|
      ensures found <==> FindsTarget(values, aliasSet, births, local != 0, local)
    {
      found := SearchDead(values, aliasSet, births, local, local != 0);
    }

    /** `df_check`: reports the first drop of a dead value, once for each root local. */
    method DfCheck(drop: nat, span: Span) returns (dead: bool)
      requires Valid() && drop < |values|
      modifies this`dfBugs
      ensures dead <==> !Alive(births, drop)
      ensures dfBugs == if dead && values[drop].local !in old(dfBugs)
                        then old(dfBugs)[values[drop].local := span] else old(dfBugs)
    {
      var root := values[drop].local;
      if births[drop] <= -1 && root !in dfBugs {
        dfBugs := dfBugs[root := span];
      }
      dead := births[drop] <= -1;
    }

    ghost function Unrecorded(): set<nat>
      reads this
    {
      set i | 0 <= i < |deadRecord| && !deadRecord[i]
    }

    /** `dead_node`; `direct` and `zone` are any sets that direct drops and kills do not leave, and
        `below` any that holds the fields. */
    method DeadNode(drop: nat, birth: nat, span: Span, alias: bool, ghost direct: set<nat>, ghost zone: set<nat>,
                    ghost below: set<nat>)
      requires Valid() && drop < |values| && drop in (if alias then zone else direct)
      requires KillsStay(values, aliasSet, direct, zone) && (!alias ==> HoldsFields(values, below, drop))
      modifies this`births, this`deadRecord, this`dfBugs
      ensures Valid() && KillsIn(values, aliasSet, birth, zone, old(Snap()), Snap())
      ensures ReportsBacked(values, span, old(Reportable(births, drop, alias, below)), old(Snap()), Snap())
      ensures !IsCorner(values[drop]) && (alias || old(Alive(births, drop))) ==> deadRecord[drop]
      ensures !IsCorner(values[drop]) && !alias && !old(Alive(births, drop)) ==>
                values[drop].local in dfBugs && births == old(births) && deadRecord == old(deadRecord)
      ensures !IsCorner(values[drop]) && !alias && old(Alive(births, drop) && !deadRecord[drop]) ==>
                FieldsFollow(values, drop, Snap())
      ensures Unrecorded() <= old(Unrecorded())
      decreases Unrecorded(), 0
    {
      ghost var s := Snap();
      KillsNothing(values, aliasSet, birth, zone, s);
      if values[drop].kind == CornerCase {
        return;
      }
      if !alias {
        var dead := DfCheck(drop, span);
        if dead {
          return;
        }
      }
      if deadRecord[drop] {
        return;
      }
      deadRecord := deadRecord[drop := true];
      assert drop in old(Unrecorded()) && drop !in Unrecorded();
      KillsNothing(values, aliasSet, birth, zone, Snap());
      KillAround(drop, birth, span, alias, direct, zone, below);
      ghost var t := Snap();
      if births[drop] < birth && values[drop].mayDrop {
        births := births[drop := -1];
      }
      KillsAround(values, aliasSet, span, birth, zone, if alias then {} else below, drop, s, t, Snap());
    }

    /** The aliases and, on a direct drop, the fields of a recorded value. */
    method KillAround(drop: nat, birth: nat, span: Span, alias: bool, ghost direct: set<nat>, ghost zone: set<nat>,
                      ghost below: set<nat>)
      requires Valid() && drop < |values| && drop in (if alias then zone else direct) && deadRecord[drop]
      requires KillsStay(values, aliasSet, direct, zone) && (!alias ==> HoldsFields(values, below, drop))
      requires !IsCorner(values[drop])
      modifies this`births, this`deadRecord, this`dfBugs
      ensures Valid() && KillsIn(values, aliasSet, birth, zone, old(Snap()), Snap())
      ensures ReportsBacked(values, span, if alias then {} else below, old(Snap()), Snap())
      ensures aliasSet[drop] != drop ==> ClassRecorded(values, aliasSet, drop, Snap())
      ensures !alias ==> FieldsFollow(values, drop, Snap())
      ensures Unrecorded() <= old(Unrecorded())
      decreases Unrecorded(), 2
    {
      ghost var s := Snap();
      KillsNothing(values, aliasSet, birth, zone, s);
      if aliasSet[drop] != drop {
        KillAliases(drop, birth, span, direct, zone);
      }
      ghost var t := Snap();
      if !alias {
        KillFields(drop, birth, span, direct, zone, below);
        KillsTrans(values, aliasSet, birth, zone, s, t, Snap());
        ReportsWiden(values, span, {}, below, s, t);
        ReportsTrans(values, span, birth, below, s, t, Snap());
      }
    }

    method KillAliases(drop: nat, birth: nat, span: Span, ghost direct: set<nat>, ghost zone: set<nat>)
      requires Valid() && drop < |values| && aliasSet[drop] != drop && drop in zone
      requires KillsStay(values, aliasSet, direct, zone) && deadRecord[drop] && !IsCorner(values[drop])
      modifies this`births, this`deadRecord, this`dfBugs
      ensures Valid() && KillsIn(values, aliasSet, birth, zone, old(Snap()), Snap())
      ensures ClassRecorded(values, aliasSet, drop, Snap()) && ReportsBacked(values, span, {}, old(Snap()), Snap())
      ensures Unrecorded() <= old(Unrecorded())
      decreases Unrecorded(), 1
    {
      ghost var s := Snap();
      KillsNothing(values, aliasSet, birth, zone, s);
      var i := 0;
      while i < |values|
        invariant 0 <= i <= |values| && Valid() && Unrecorded() <= old(Unrecorded())
        invariant KillsIn(values, aliasSet, birth, zone, s, Snap()) && ReportsBacked(values, span, {}, s, Snap())
        invariant forall j :: 0 <= j < i && Same(aliasSet, drop, j) && DiesWithAlias(values[j]) ==> deadRecord[j]
      {
        var same := UnionIsSame(aliasSet, drop, i);
        if same && i != drop && values[i].kind != Ref {
          ghost var t := Snap();
          AliasInZone(values, aliasSet, direct, zone, drop, i);
          DeadNode(i, birth, span, true, direct, zone, {});
          KillsTrans(values, aliasSet, birth, zone, s, t, Snap());
          ReportsTrans(values, span, birth, {}, s, t, Snap());
        }
        i := i + 1;
      }
    }

    method KillFields(drop: nat, birth: nat, span: Span, ghost direct: set<nat>, ghost zone: set<nat>,
                      ghost below: set<nat>)
      requires Valid() && drop < |values| && drop in direct && KillsStay(values, aliasSet, direct, zone)
      requires HoldsFields(values, below, drop) && !IsCorner(values[drop])
      modifies this`births, this`deadRecord, this`dfBugs
      ensures Valid() && KillsIn(values, aliasSet, birth, zone, old(Snap()), Snap())
      ensures FieldsFollow(values, drop, Snap()) && ReportsBacked(values, span, below, old(Snap()), Snap())
      ensures Unrecorded() <= old(Unrecorded())
      decreases Unrecorded(), 1
    {
      ghost var s := Snap();
      KillsNothing(values, aliasSet, birth, zone, s);
      var todo := values[drop].fields.Keys;
      while todo != {}
        invariant Valid() && Unrecorded() <= old(Unrecorded()) && todo <= values[drop].fields.Keys
        invariant KillsIn(values, aliasSet, birth, zone, s, Snap()) && ReportsBacked(values, span, below, s, Snap())
        invariant forall f :: f in values[drop].fields && f !in todo ==>
                    FieldDone(values, drop, values[drop].fields[f], Snap())
        decreases todo
      {
        var f :| f in todo;
        todo := todo - {f};
        var child := values[drop].fields[f];
        if !(values[drop].kind == Tuple && !values[child].needDrop) {
          ghost var t := Snap();
          assert IsField(values, drop, child) && EntersField(values, drop, child);
          DeadNode(child, birth, span, false, direct, zone, below);
          KillsTrans(values, aliasSet, birth, zone, s, t, Snap());
          ReportsWiden(values, span, Reportable(t.births, child, false, below), below, t, Snap());
          ReportsTrans(values, span, birth, below, s, t, Snap());
        }
      }
    }

    ghost function Now(): World
      reads this
    {
      World(values, aliasSet, Snap())
    }

    /** `drop_check` for one resolved place. */
    method DropPlace(node: nat, birth: nat, span: Span)
      requires Valid() && Ordered(values) && node < |values|
      modifies this`births, this`deadRecord, this`dfBugs
      ensures Valid() && Takes(old(Now()), Drop(node, birth, span), Now())
    {
      BelowHoldsFields(values, node);
      LeastStays(values, aliasSet, node);
      DeadNode(node, birth, span, false, DirectZone(values, aliasSet, node), KillZone(values, aliasSet, node),
               Below(values, node));
    }

    /** Which aliases die with a field-free value: exactly those of a value that has a parent
        in the alias array. From the root of a class a kill goes nowhere else. */
    method DropFieldFree(node: nat, birth: nat, span: Span)
      requires Valid() && node < |values| && values[node].fields == map[] && !IsCorner(values[node])
      requires Alive(births, node) && !deadRecord[node]
      modifies this`births, this`deadRecord, this`dfBugs
      ensures Valid() && deadRecord[node]
      ensures births[node] == -1 <==> values[node].mayDrop && old(births[node]) < birth
      ensures forall j :: 0 <= j < |values| && !old(deadRecord)[j] && OtherAlias(values, aliasSet, node, j) ==>
                (deadRecord[j] <==> aliasSet[node] != node)
      ensures Kills(values, birth, old(Snap()), Snap())
    {
      ghost var zone := if aliasSet[node] == node then {node} else Unvisited(values, {});
      assert KillsStay(values, aliasSet, {node}, zone) by {
        assert forall m :: 0 <= m < |values| ==> !IsField(values, node, m);
      }
      ghost var s := Snap();
      DeadNode(node, birth, span, false, {node}, zone, {});
      assert Newly(s, Snap(), node);
      forall j | 0 <= j < |values| && !s.deadRecord[j] && OtherAlias(values, aliasSet, node, j)
        ensures deadRecord[j] <==> aliasSet[node] != node
      {
        assert deadRecord[j] <==> Newly(s, Snap(), j);
      }
    }

    /** The birth that `alias_bb` gives an assigned place. */
    method Assigned(node: nat, birth: nat)
      requires Valid() && Ordered(values) && node < |values|
      modifies this`births
      ensures Takes(old(Now()), Fill(node, birth), Now())
    {
      FillBirth(node, birth);
    }

    /** The first half of `fill_birth`: the node itself and its dead aliases. */
    method FillClass(node: nat, birth: nat)
      requires |aliasSet| == |values| == |births| && Acyclic(aliasSet) && node < |values|
      modifies this`births
      ensures births == Reborn(aliasSet, old(births), {node}, birth)
    {
      ghost var b0 := births;
      births := births[node := birth];
      var i := 0;
      while i < |values|
        invariant 0 <= i <= |values| && |births| == |values|
        invariant forall k :: 0 <= k < |values| ==>
                    births[k] == (if k == node || (k < i && b0[k] == -1 && Same(aliasSet, k, node))
                                  then birth else b0[k])
      {
        var same := UnionIsSame(aliasSet, i, node);
        if same && births[i] == -1 {
          births := births[i := birth];
        }
        i := i + 1;
      }
      assert births == Reborn(aliasSet, b0, {node}, birth) by {
        assert forall k :: 0 <= k < |b0| ==> (MeetsClass(aliasSet, {node}, k) <==> Same(aliasSet, k, node));
      }
    }

    /** `fill_birth`: the tree below `node` is born at `birth`, and so is every dead value
        that aliases into it. */
    method FillBirth(node: nat, birth: nat)
      requires Ordered(values) && |aliasSet| == |values| == |births| && Acyclic(aliasSet) && node < |values|
      modifies this`births
      ensures births == Reborn(aliasSet, old(births), Desc(values, node), birth)
      ensures forall x :: 0 <= x < |values| ==>
                births[x] == if x in Desc(values, node)
                                || (old(births)[x] == -1 && exists j :: j in Desc(values, node) && Same(aliasSet, x, j))
                             then birth else old(births)[x]
      decreases |values| - node
    {
      ghost var b0 := births;
      FillClass(node, birth);
      DescClosed(values, node);
      var todo := values[node].fields.Keys;
      ghost var done := {node};
      while todo != {}
        invariant todo <= values[node].fields.Keys && |births| == |values|
        invariant births == Reborn(aliasSet, b0, done, birth)
        invariant TreesDone(values, node, todo, done)
        decreases todo
      {
        var f :| f in todo;
        var child := values[node].fields[f];
        FillBirth(child, birth);
        RebornTwice(aliasSet, b0, done, Desc(values, child), birth);
        TreesNext(values, node, todo, done, f);
        todo, done := todo - {f}, done + Desc(values, child);
      }
      DescByFields(values, node, done);
    }
  }

  /** A member of `zone` aliases `x`. */
  ghost predicate MeetsClass(p: seq<nat>, zone: set<nat>, x: nat) {
    exists j :: j in zone && Same(p, x, j)
  }

  ghost function Reborn(p: seq<nat>, b: seq<int>, zone: set<nat>, birth: nat): (r: seq<int>)
    ensures |r| == |b|
  {
    seq(|b|, i requires 0 <= i < |b| => if i in zone || (b[i] == -1 && MeetsClass(p, zone, i)) then birth else b[i])
  }

  lemma RebornTwice(p: seq<nat>, b: seq<int>, x: set<nat>, y: set<nat>, birth: nat)
    ensures Reborn(p, Reborn(p, b, x, birth), y, birth) == Reborn(p, b, x + y, birth)
  {
    forall i | 0 <= i < |b| ensures MeetsClass(p, x + y, i) <==> MeetsClass(p, x, i) || MeetsClass(p, y, i) {
      if MeetsClass(p, x, i) {
        var j :| j in x && Same(p, i, j);
        assert j in x + y;
      }
      if MeetsClass(p, y, i) {
        var j :| j in y && Same(p, i, j);
        assert j in x + y;
      }
    }
  }

  lemma DescOfField(v: Values, n: nat, f: nat)
    requires Ordered(v) && n < |v| && f in v[n].fields
    ensures Desc(v, v[n].fields[f]) <= Desc(v, n)
  {
    DescClosed(v, n);
    DescInClosed(v, Desc(v, n), v[n].fields[f]);
  }

  /** `done` holds `n` and the trees of its fields outside `todo`. */
  ghost predicate TreesDone(v: Values, n: nat, todo: set<nat>, done: set<nat>)
    requires Ordered(v) && n < |v|
  {
    && n in done && done <= Desc(v, n)
    && forall f :: f in v[n].fields && f !in todo ==> Desc(v, v[n].fields[f]) <= done
  }

  lemma TreesNext(v: Values, n: nat, todo: set<nat>, done: set<nat>, f: nat)
    requires Ordered(v) && n < |v| && TreesDone(v, n, todo, done) && f in v[n].fields
    ensures TreesDone(v, n, todo - {f}, done + Desc(v, v[n].fields[f]))
  {
    DescOfField(v, n, f);
  }

  lemma DescByFields(v: Values, n: nat, done: set<nat>)
    requires Ordered(v) && n < |v| && TreesDone(v, n, {}, done)
    ensures done == Desc(v, n)
  {
    forall x | x in Desc(v, n) ensures x in done {
      var path :| At(v, n, path) == Some(x);
      if path != [] {
        assert At(v, v[n].fields[path[0]], path[1..]) == Some(x);
        assert x in Desc(v, v[n].fields[path[0]]);
      }
    }
  }

  /** The tree of `n` without `n` itself. */
  ghost function Below(v: Values, n: nat): set<nat>
    requires Ordered(v) && n < |v|
  {
    Desc(v, n) - {n}
  }

  lemma BelowHoldsFields(v: Values, n: nat)
    requires Ordered(v) && n < |v|
    ensures HoldsFields(v, Below(v, n), n)
  {
    DescClosed(v, n);
    var from := set x | 0 <= x < |v| && n <= v[x].index;
    DescInClosed(v, from, n);
    forall i, m | i in Desc(v, n) && 0 <= i < |v| && 0 <= m < |v| && IsField(v, i, m) ensures m in Below(v, n) {
      var f :| f in v[i].fields && v[i].fields[f] == m;
      assert n <= i < m;
    }
  }

  // ---------------------------------------------------------------- double frees over runs

  /** The steps of a path that touch liveness. `Grow` stands for projections and merges, which
      add values and change aliases. */
  datatype Step =
    | Drop(node: nat, birth: nat, span: Span)
    | Fill(node: nat, birth: nat)
    | CallResult(node: nat, birth: nat)
    | Grow

  datatype World = World(values: Values, aliasSet: seq<nat>, life: Life)

  ghost predicate WorldValid(w: World) {
    Ordered(w.values) && Sized(w.values, w.life) && |w.aliasSet| == |w.values| && Acyclic(w.aliasSet)
  }

  /** What each step does, as the contracts of the methods state it. */
  ghost predicate Takes(w: World, step: Step, u: World) {
    && WorldValid(w) && WorldValid(u)
    && match step
       case Drop(node, birth, span) =>
         && u.values == w.values && u.aliasSet == w.aliasSet && node < |w.values|
         && Kills(w.values, birth, w.life, u.life)
         && RecordsIn(w.values, KillZone(w.values, w.aliasSet, node), w.life, u.life)
         && AliasesFollow(w.values, w.aliasSet, w.life, u.life)
         && (!IsCorner(w.values[node]) && Alive(w.life.births, node) && !w.life.deadRecord[node] ==>
               FieldsFollow(w.values, node, u.life))
         && (!IsCorner(w.values[node]) && Alive(w.life.births, node) ==> u.life.deadRecord[node])
         && (!IsCorner(w.values[node]) && !Alive(w.life.births, node) ==> w.values[node].local in u.life.dfBugs)
         && ReportsBacked(w.values, span, Reportable(w.life.births, node, false, Below(w.values, node)), w.life, u.life)
       case Fill(node, birth) =>
         && u.values == w.values && u.aliasSet == w.aliasSet && node < |w.values|
         && u.life == w.life.(births := Reborn(w.aliasSet, w.life.births, Desc(w.values, node), birth))
       case CallResult(node, birth) =>
         && u.values == w.values && u.aliasSet == w.aliasSet && node < |w.values|
         && u.life == w.life.(births := w.life.births[node := birth])
       case Grow =>
         && Extends(w.values, u.values) && u.life.dfBugs == w.life.dfBugs
         && w.life.births <= u.life.births && w.life.deadRecord <= u.life.deadRecord
  }

  /** The step gives value `x` no new birth. */
  ghost predicate NoRebirth(w: World, step: Step, x: nat) {
    match step
    case Fill(node, _) =>
      && WorldValid(w) && node < |w.values|
      && x !in Desc(w.values, node) && !MeetsClass(w.aliasSet, Desc(w.values, node), x)
    case CallResult(node, _) => x != node
    case _ => true
  }

  ghost predicate IsHistory(worlds: seq<World>, steps: seq<Step>) {
    && |worlds| == |steps| + 1
    && forall i, j :: 0 <= i < |steps| && j == i + 1 ==> Takes(worlds[i], steps[i], worlds[j])
  }

  /** A dead value stays dead, with its local, until a step gives it a new birth; reports stay. */
  lemma {:induction false} StaysDead(worlds: seq<World>, steps: seq<Step>, i: nat, j: nat, x: nat)
    requires IsHistory(worlds, steps) && i <= j <= |steps|
    requires WorldValid(worlds[i]) && x < |worlds[i].values| && !Alive(worlds[i].life.births, x)
    requires forall k :: i <= k < j ==> NoRebirth(worlds[k], steps[k], x)
    ensures WorldValid(worlds[j]) && x < |worlds[j].values| && !Alive(worlds[j].life.births, x)
    ensures worlds[j].values[x].local == worlds[i].values[x].local
    ensures worlds[j].values[x].kind == worlds[i].values[x].kind
    ensures forall k :: k in worlds[i].life.dfBugs ==> k in worlds[j].life.dfBugs
    decreases j - i
  {
    if i < j {
      assert Takes(worlds[i], steps[i], worlds[i + 1]);
      StaysDead(worlds, steps, i + 1, j, x);
    }
  }

  /** Dropping a value twice is reported: if a live, unrecorded, droppable value that is no
      counted pointer is dropped in a block of larger index than its birth, and dropped again
      with no rebirth between, a report for its root local exists after the second drop. */
  lemma DoubleDropReported(worlds: seq<World>, steps: seq<Step>, i: nat, j: nat, x: nat)
    requires IsHistory(worlds, steps) && i < j < |steps|
    requires steps[i].Drop? && steps[i].node == x && steps[j].Drop? && steps[j].node == x
    requires WorldValid(worlds[i]) && x < |worlds[i].values|
    requires !IsCorner(worlds[i].values[x]) && worlds[i].values[x].mayDrop
    requires Alive(worlds[i].life.births, x) && !worlds[i].life.deadRecord[x]
    requires worlds[i].life.births[x] < steps[i].birth
    requires forall k :: i < k < j ==> NoRebirth(worlds[k], steps[k], x)
    ensures worlds[i].values[x].local in worlds[j + 1].life.dfBugs
  {
    assert Takes(worlds[i], steps[i], worlds[i + 1]);
    assert Newly(worlds[i].life, worlds[i + 1].life, x);
    StaysDead(worlds, steps, i + 1, j, x);
    assert Takes(worlds[j], steps[j], worlds[j + 1]);
  }

  /** Exactly when a drop kills: nothing but a restored branch ever clears `dead_record`, so a value
      that was dropped before and assigned again is past killing. */
  lemma DropKillsIff(w: World, u: World, x: nat, birth: nat, span: Span)
    requires Takes(w, Drop(x, birth, span), u)
    requires !IsCorner(w.values[x]) && w.values[x].mayDrop && Alive(w.life.births, x)
    ensures !Alive(u.life.births, x) <==> !w.life.deadRecord[x] && w.life.births[x] < birth
  {
  }

  /** A drop leaves alone what it cannot come to: in particular the parts of a tuple that need no drop,
      with their aliases, unless another value that dies leads there. */
  lemma ShelteredUntouched(w: World, u: World, node: nat, birth: nat, span: Span, shelter: set<nat>)
    requires Takes(w, Drop(node, birth, span), u) && node !in shelter && Sheltered(w.values, w.aliasSet, shelter)
    ensures forall x :: x in shelter && x < |w.values| ==>
              u.life.births[x] == w.life.births[x] && u.life.deadRecord[x] == w.life.deadRecord[x]
  {
    ShelteredOutside(w.values, w.aliasSet, node, shelter);
    forall x | x in shelter && x < |w.values| ensures u.life.deadRecord[x] == w.life.deadRecord[x] {
      assert !Newly(w.life, u.life, x);
    }
  }

  /** The fields of a tuple that die with it: a part that no other value leads to keeps its record and
      birth when it needs no drop, and is otherwise recorded or reported. */
  lemma TuplePartDiesIff(w: World, u: World, node: nat, birth: nat, span: Span, f: nat)
    requires Takes(w, Drop(node, birth, span), u) && UniqueParent(w.values)
    requires w.values[node].kind == Tuple && Alive(w.life.births, node) && !w.life.deadRecord[node]
    requires f in w.values[node].fields
    requires var c := w.values[node].fields[f];
             !IsCorner(w.values[c]) && !w.life.deadRecord[c]
             && (forall n :: 0 <= n < |w.values| ==> !ReachesAlias(w.values, w.aliasSet, n, c))
    ensures var c := w.values[node].fields[f];
            if w.values[c].needDrop then u.life.deadRecord[c] || w.values[c].local in u.life.dfBugs
            else !u.life.deadRecord[c] && u.life.births[c] == w.life.births[c]
  {
    var c := w.values[node].fields[f];
    if w.values[c].needDrop {
      assert FieldDone(w.values, node, c, u.life);
    } else {
      assert Sheltered(w.values, w.aliasSet, {c});
      ShelteredUntouched(w, u, node, birth, span, {c});
    }
  }

  /** A recorded value that is alive stays alive and recorded through any steps: no later drop of
      it is ever the second one. */
  lemma {:induction false} RecordedOutlives(worlds: seq<World>, steps: seq<Step>, i: nat, j: nat, x: nat)
    requires IsHistory(worlds, steps) && i <= j <= |steps|
    requires WorldValid(worlds[i]) && x < |worlds[i].values|
    requires worlds[i].life.deadRecord[x] && Alive(worlds[i].life.births, x)
    ensures WorldValid(worlds[j]) && x < |worlds[j].values|
    ensures worlds[j].life.deadRecord[x] && Alive(worlds[j].life.births, x)
    decreases j - i
  {
    if i < j {
      assert Takes(worlds[i], steps[i], worlds[i + 1]);
      RecordedOutlives(worlds, steps, i + 1, j, x);
    }
  }

  /** A drop of a field-free value reports its local exactly when the value is dead. */
  lemma DropReportsIff(w: World, u: World, x: nat, birth: nat, span: Span, k: nat)
    requires Takes(w, Drop(x, birth, span), u) && w.values[x].fields == map[] && !IsCorner(w.values[x])
    ensures k in u.life.dfBugs <==> k in w.life.dfBugs || (k == w.values[x].local && !Alive(w.life.births, x))
  {
    forall y | y in Desc(w.values, x) ensures y == x {
      var path :| At(w.values, x, path) == Some(y);
    }
  }

  /** No value of the local is dead. */
  ghost predicate NoneDead(w: World, local: nat) {
    WorldValid(w) && forall m :: 0 <= m < |w.values| && w.values[m].local == local ==> Alive(w.life.births, m)
  }

  /** A local without a dead value gains no report. */
  lemma {:induction false} NoneDeadNoReport(worlds: seq<World>, steps: seq<Step>, i: nat, j: nat, local: nat)
    requires IsHistory(worlds, steps) && i <= j <= |steps|
    requires forall n :: i <= n <= j ==> NoneDead(worlds[n], local)
    ensures local in worlds[j].life.dfBugs ==> local in worlds[i].life.dfBugs
    decreases j - i
  {
    if i < j {
      assert Takes(worlds[i], steps[i], worlds[i + 1]);
      NoneDeadNoReport(worlds, steps, i + 1, j, local);
    }
  }

  lemma {:induction false} HistoryExtends(worlds: seq<World>, steps: seq<Step>, i: nat, j: nat)
    requires IsHistory(worlds, steps) && i <= j <= |steps|
    requires WorldValid(worlds[i])
    ensures WorldValid(worlds[j]) && Extends(worlds[i].values, worlds[j].values)
    decreases j - i
  {
    if i < j {
      assert Takes(worlds[i], steps[i], worlds[i + 1]);
      HistoryExtends(worlds, steps, i + 1, j);
      ExtendsTrans(worlds[i].values, worlds[i + 1].values, worlds[j].values);
    }
  }

  /** `x` is the only value of its local. */
  ghost predicate Lone(v: Values, x: nat) {
    x < |v| && forall m :: 0 <= m < |v| && v[m].local == v[x].local ==> m == x
  }

  /** A recorded live value that is the only one of its local is never reported. */
  lemma RecordedNeverReported(worlds: seq<World>, steps: seq<Step>, i: nat, j: nat, x: nat)
    requires IsHistory(worlds, steps) && i <= j <= |steps|
    requires WorldValid(worlds[i]) && x < |worlds[i].values|
    requires worlds[i].life.deadRecord[x] && Alive(worlds[i].life.births, x) && Lone(worlds[j].values, x)
    ensures worlds[i].values[x].local in worlds[j].life.dfBugs ==> worlds[i].values[x].local in worlds[i].life.dfBugs
  {
    var local := worlds[i].values[x].local;
    forall n | i <= n <= j ensures NoneDead(worlds[n], local) {
      HistoryExtends(worlds, steps, i, n);
      HistoryExtends(worlds, steps, n, j);
      RecordedOutlives(worlds, steps, i, n, x);
    }
    NoneDeadNoReport(worlds, steps, i, j, local);
  }

  /** Exactly when a double free is reported: the value was not recorded before the first of the
      two drops and was born before its block. */
  lemma DoubleDropReportedIff(worlds: seq<World>, steps: seq<Step>, i: nat, j: nat, x: nat)
    requires IsHistory(worlds, steps) && i < j < |steps|
    requires steps[i].Drop? && steps[i].node == x && steps[j].Drop? && steps[j].node == x
    requires WorldValid(worlds[i]) && x < |worlds[i].values| && Alive(worlds[i].life.births, x)
    requires !IsCorner(worlds[i].values[x]) && worlds[i].values[x].mayDrop && Lone(worlds[j + 1].values, x)
    requires worlds[i].values[x].local !in worlds[i].life.dfBugs
    requires forall k :: i < k < j ==> NoRebirth(worlds[k], steps[k], x)
    ensures worlds[i].values[x].local in worlds[j + 1].life.dfBugs <==>
            !worlds[i].life.deadRecord[x] && worlds[i].life.births[x] < steps[i].birth
  {
    assert Takes(worlds[i], steps[i], worlds[i + 1]);
    if !worlds[i].life.deadRecord[x] && worlds[i].life.births[x] < steps[i].birth {
      DoubleDropReported(worlds, steps, i, j, x);
    } else {
      assert worlds[i + 1].life.deadRecord[x] && Alive(worlds[i + 1].life.births, x);
      HistoryExtends(worlds, steps, i + 1, j + 1);
      LoneDropUnreported(worlds[i], worlds[i + 1], x, steps[i].birth, steps[i].span);
      RecordedNeverReported(worlds, steps, i + 1, j + 1, x);
    }
  }

  /** Nor does the first drop itself report a value that is alive after it. */
  lemma LoneDropUnreported(w: World, u: World, x: nat, birth: nat, span: Span)
    requires Takes(w, Drop(x, birth, span), u) && Lone(w.values, x) && Alive(u.life.births, x)
    ensures w.values[x].local in u.life.dfBugs ==> w.values[x].local in w.life.dfBugs
  {
  }

  /** The missed double free: dropped, assigned again, then dropped twice without a report. */
  method RebornDoubleFreeMissed(span: Span) returns (births: seq<int>, dfBugs: map<nat, Span>)
    ensures births == [1] && dfBugs == map[]
  {
    var s := new SafeDrop;
    s.values := [ValueNode(0, 0, true, true, Adt, 0, None, map[])];
    s.aliasSet, s.births, s.deadRecord, s.dfBugs := [0], [0], [false], map[];
    FlatIsAcyclic(s.aliasSet);
    ghost var w0 := s.Now();
    s.DropPlace(0, 1, span);
    ghost var w1 := s.Now();
    LoneSteps(w0, w1, span, 1);
    s.Assigned(0, 1);
    ghost var w2 := s.Now();
    LoneFill(w1, w2, 1);
    s.DropPlace(0, 2, span);
    ghost var w3 := s.Now();
    LoneSteps(w2, w3, span, 2);
    s.DropPlace(0, 2, span);
    LoneSteps(w3, s.Now(), span, 2);
    births, dfBugs := s.births, s.dfBugs;
  }

  lemma LoneFill(w: World, u: World, birth: nat)
    requires Takes(w, Fill(0, birth), u) && |w.values| == 1
    ensures u.life == w.life.(births := [birth])
  {
    DescClosed(w.values, 0);
  }

  /** A drop of the only value of an arena, when it is alive. */
  lemma LoneSteps(w: World, u: World, span: Span, birth: nat)
    requires Takes(w, Drop(0, birth, span), u) && |w.values| == 1 && w.values[0].fields == map[]
    requires w.values[0].mayDrop && !IsCorner(w.values[0]) && Alive(w.life.births, 0) && w.life.dfBugs == map[]
    ensures |u.life.births| == 1 && u.life.deadRecord == [true] && u.life.dfBugs == map[]
    ensures u.life.births == if !w.life.deadRecord[0] && w.life.births[0] < birth then [-1] else w.life.births
  {
    forall k ensures k !in u.life.dfBugs {
      if k >= 0 {
        DropReportsIff(w, u, 0, birth, span, k);
      }
    }
  }

  /** Two aliases; the root is dropped and its alias lives on. */
  method RootDropSparesAlias(span: Span) returns (births: seq<int>)
    ensures births == [-1, 0]
  {
    var s := new SafeDrop;
    s.values := [ValueNode(0, 0, true, true, Adt, 0, None, map[]), ValueNode(1, 1, true, true, Adt, 1, None, map[])];
    s.aliasSet := [0, 0];
    s.births, s.deadRecord, s.dfBugs := [0, 0], [false, false], map[];
    FlatIsAcyclic(s.aliasSet);
    assert OtherAlias(s.values, s.aliasSet, 0, 1);
    ghost var before := s.Snap();
    s.DropFieldFree(0, 1, span);
    assert !Newly(before, s.Snap(), 1);
    births := s.births;
  }

  /** Local 0 is a tuple of a raw pointer and an owner, local 1 a raw pointer. */
  function PointerTuple(): (v: Values)
    ensures Ordered(v) && FieldsInside(v)
  {
    [ValueNode(0, 0, true, true, Tuple, 0, None, map[0 := 2, 1 := 3]),
     ValueNode(1, 1, false, true, RawPtr, 1, None, map[]),
     ValueNode(2, 0, false, true, RawPtr, 0, Some(0), map[]),
     ValueNode(3, 0, true, true, Adt, 0, Some(1), map[])]
  }

  /** A tuple of a raw pointer and an owner, the pointer copied to local 1, the tuple dropped: the
      copied pointer lives and its use is no use after free. */
  method TuplePartLives(span: Span, use: Span) returns (births: seq<int>, uafBugs: set<Span>)
    ensures |births| == 4 && births[1] == births[2] == 0 && uafBugs == {}
  {
    var s := new SafeDrop;
    s.values := PointerTuple();
    s.aliasSet, s.births, s.deadRecord := [0, 1, 1, 3], [0, 0, 0, 0], [false, false, false, false];
    s.dfBugs, s.uafBugs := map[], {};
    FlatIsAcyclic(s.aliasSet);
    ghost var w := s.Now();
    s.DropPlace(0, 1, span);
    PointerLives(w, s.Now(), span);
    s.UafCheck(1, use, 1, true);
    births, uafBugs := s.births, s.uafBugs;
  }

  lemma PointerLives(w: World, u: World, span: Span)
    requires w.values == PointerTuple() && w.aliasSet == [0, 1, 1, 3] && w.life.births == [0, 0, 0, 0]
    requires Takes(w, Drop(0, 1, span), u)
    ensures u.life.births[1] == u.life.births[2] == 0 && !FindsTarget(u.values, u.aliasSet, u.life.births, false, 1)
  {
    PointerSheltered(w.values, w.aliasSet);
    ShelteredUntouched(w, u, 0, 1, span, {1, 2});
    NoTargetWithin(u.values, u.aliasSet, u.life.births, {1, 2}, 1);
  }

  /** The pointer and its copy: only the tuple leads to them, and it does not enter them. */
  lemma PointerSheltered(v: Values, p: seq<nat>)
    requires |v| == 4 && p == [0, 1, 1, 3] && v[0].kind == Tuple && v[0].fields == map[0 := 2, 1 := 3]
    requires !v[2].needDrop && forall i :: 1 <= i < 4 ==> v[i].fields == map[]
    ensures Sheltered(v, p, {1, 2}) && LinksOf(v, p, 1) <= {1, 2} && LinksOf(v, p, 2) <= {1, 2}
  {
    FlatIsAcyclic(p);
    assert forall n, m :: 0 <= n < 4 && 0 <= m < 4 && Same(p, n, m) ==> p[n] == p[m];
    forall m | 0 <= m < 4 && IsField(v, 0, m) ensures m == 2 || m == 3 {
      var f :| f in v[0].fields && v[0].fields[f] == m;
    }
  }

  /** Nothing is found from a closed set of live values. */
  lemma NoTargetWithin(v: Values, p: seq<nat>, births: seq<int>, live: set<nat>, node: nat)
    requires |v| == |births| && node in live && (forall n :: n in live ==> n < |v| && LinksOf(v, p, n) <= live)
    requires forall n :: n in live ==> Alive(births, n)
    ensures !FindsTarget(v, p, births, false, node)
  {
    assert Closed(Links(v, p), live);
    forall m | 0 <= m < |v| && Reaches(Links(v, p), node, m) ensures Alive(births, m) {
      ClosedKeepsReach(Links(v, p), live, node, m);
    }
  }
}
