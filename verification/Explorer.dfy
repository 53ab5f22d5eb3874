/** The path explorer of the MoP analysis (`check`, `split_check`, `split_check_with_cond`):
    a depth-first search that mutates one state and restores it after every branch. */
module Explorer {
  import opened Arena
  import opened AliasGraph
  import opened Paths

  const VISIT_LIMIT := 100

  /** usize::MAX, recorded for the default arm of a switch. */
  const DEFAULT_ARM := 0xFFFF_FFFF_FFFF_FFFF

  /** The state that `split_check` saves: arena, parent array and known constants. */
  datatype State = State(values: Values, aliasSet: seq<nat>, constant: map<nat, nat>)

  /** `OnPlace` names the place by the block it switches in; `OnConstant` carries the value,
      0 when it cannot be evaluated. */
  datatype Switch = NoSwitch | OnPlace(targets: seq<(nat, nat)>, otherwise: nat)
                  | OnConstant(value: nat, targets: seq<(nat, nat)>, otherwise: nat)

  /** One function: its condensed graph and what each block does. `flow` is the effect of a
      block's assignments and calls, `place` the projection of its switch operand with the
      place and its local, `leaf` what `merge_results` extracts. */
  datatype Program = Program(
    next: seq<set<nat>>,
    rep: seq<nat>,
    hasSub: seq<bool>,
    orders: seq<seq<seq<nat>>>,        // the sub-block orders after the first, empty one
    consts: seq<seq<(nat, nat)>>,
    switches: seq<Switch>,
    discMap: map<nat, nat>,
    flow: (nat, Values, seq<nat>) -> (Values, seq<nat>),
    place: (nat, Values, seq<nat>) -> (Values, seq<nat>, nat, nat),
    leaf: (Values, seq<nat>) -> set<RetAlias>)
  {
    ghost predicate Valid() {
      && |next| == |rep| == |hasSub| == |orders| == |consts| == |switches|
      && (forall b :: 0 <= b < |rep| ==> rep[b] < |rep|)
      && (forall b, w :: 0 <= b < |next| && w in next[b] ==> w < |next|)
      && (forall b :: 0 <= b < |switches| && !switches[b].NoSwitch? ==>
            (switches[b].otherwise < |next|
             && forall i :: 0 <= i < |switches[b].targets| ==> switches[b].targets[i].1 < |next|))
      && (forall b, i, k :: 0 <= b < |orders| && 0 <= i < |orders[b]| && 0 <= k < |orders[b][i]| ==>
            orders[b][i][k] < |next|)
      && (forall b :: 0 <= b < |hasSub| && !hasSub[b] ==> orders[b] == [])
    }
  }

  /** A pending call of `check`: the block and the state it starts in. */
  datatype Config = Config(block: nat, state: State)

  /** What the switch at the end of a block decides. */
  datatype Decision = Fixed(target: nat) | Arms(discr: nat, targets: seq<(nat, nat)>, otherwise: nat) | All

  // ---------------------------------------------------------------- one block, as a function

  /** `alibsbb` and `alibsbbcall` of one block. */
  function Flow(p: Program, b: nat, s: State): (t: State)
    requires b < |p.consts|
  {
    var (v, a) := p.flow(b, s.values, s.aliasSet);
    State(v, a, InsertAll(s.constant, p.consts[b]))
  }

  function FlowAll(p: Program, bs: seq<nat>, s: State): (t: State)
    requires forall k :: 0 <= k < |bs| ==> bs[k] < |p.consts|
    decreases |bs|
  {
    if bs == [] then s else FlowAll(p, bs[1..], Flow(p, bs[0], s))
  }

  /** Blocks take effect in the order given. */
  lemma {:induction false} FlowInOrder(p: Program, bs: seq<nat>, b: nat, s: State)
    requires (forall k :: 0 <= k < |bs| ==> bs[k] < |p.consts|) && b < |p.consts|
    ensures FlowAll(p, bs + [b], s) == Flow(p, b, FlowAll(p, bs, s))
    decreases |bs|
  {
    if bs == [] {
      assert bs + [b] == [b] && [b][1..] == [];
    } else {
      assert (bs + [b])[1..] == bs[1..] + [b];
      FlowInOrder(p, bs[1..], b, Flow(p, bs[0], s));
    }
  }

  /** The first arm for `value`; 0 when none is listed. */
  function ListedArm(targets: seq<(nat, nat)>, value: nat): (t: nat)
    ensures forall k :: FirstListed(targets, value, k) ==> t == targets[k].1
    ensures t == 0 || exists i :: 0 <= i < |targets| && targets[i] == (value, t)
    ensures (forall i :: 0 <= i < |targets| ==> targets[i].0 != value) ==> t == 0
    decreases |targets|
  {
    if targets == [] then 0
    else if targets[0].0 == value then targets[0].1
    else
      var t := ListedArm(targets[1..], value);
      assert forall i :: 0 <= i < |targets[1..]| ==> targets[1..][i] == targets[i + 1];
      assert forall k :: FirstListed(targets, value, k) ==> FirstListed(targets[1..], value, k - 1);
      t
  }

  /** Entry `k` is the first one for `value`. */
  ghost predicate FirstListed(targets: seq<(nat, nat)>, value: nat, k: int) {
    0 <= k < |targets| && targets[k].0 == value && forall i :: 0 <= i < k ==> targets[i].0 != value
  }

  /** `b` is where a switch goes on `value`: the first entry listed for it, and the default arm when
      there is none (or when that entry is block 0, which no switch names). */
  ghost predicate GoesTo(targets: seq<(nat, nat)>, otherwise: nat, value: nat, b: nat) {
    && (forall k :: FirstListed(targets, value, k) ==> b == if targets[k].1 != 0 then targets[k].1 else otherwise)
    && ((forall i :: 0 <= i < |targets| ==> targets[i].0 != value) ==> b == otherwise)
  }

  function Arm(targets: seq<(nat, nat)>, otherwise: nat, value: nat): (t: nat)
    ensures GoesTo(targets, otherwise, value, t)
  {
    if ListedArm(targets, value) == 0 then otherwise else ListedArm(targets, value)
  }

  /** The decision of block `r` in state `s`, and the state after looking at its operand. */
  function Decide(p: Program, r: nat, s: State): (d: (State, Decision))
    requires r < |p.switches| == |p.hasSub|
  {
    if p.hasSub[r] then (s, All)
    else
      match p.switches[r]
      case NoSwitch => (s, All)
      case OnConstant(value, targets, otherwise) => (s, Fixed(Arm(targets, otherwise, value)))
      case OnPlace(targets, otherwise) =>
        var (v, a, place, local) := p.place(r, s.values, s.aliasSet);
        var t := State(v, a, s.constant);
        if local !in p.discMap then (t, All)
        else
          var e := p.discMap[local];
          if e in s.constant && s.constant[e] != DEFAULT_ARM then (t, Fixed(Arm(targets, otherwise, s.constant[e])))
          else if local == place then (t, Arms(e, targets, otherwise))
          else (t, All)
  }

  /** Block `r` switches on the discriminant of `e`, whose value is known in `s`. */
  ghost predicate KnownAt(p: Program, r: nat, s: State, e: nat)
    requires r < |p.switches| == |p.hasSub|
  {
    && !p.hasSub[r] && p.switches[r].OnPlace? && e in s.constant && s.constant[e] != DEFAULT_ARM
    && var local := p.place(r, s.values, s.aliasSet).3; local in p.discMap && p.discMap[local] == e
  }

  // ---------------------------------------------------------------- runs

  /** `d` is explored by the decision taken in state `s` at the end of block `r`. */
  ghost predicate Follows(p: Program, r: nat, s: State, d: Config)
    requires p.Valid() && r < |p.next|
  {
    var (t, decision) := Decide(p, r, s);
    match decision
    case Fixed(target) => d == Config(target, t)
    case Arms(e, targets, otherwise) =>
      || d == ArmConfig(t, e, otherwise, DEFAULT_ARM)
      || exists i :: 0 <= i < |targets| && d == ArmConfig(t, e, targets[i].1, targets[i].0)
    case All => d.state == t && d.block in p.next[r]
  }

  /** The state in which a visit of `c` leaves its block. */
  function After(p: Program, c: Config): (s: State)
    requires c.block < |p.rep| && p.rep[c.block] < |p.consts|
  {
    Flow(p, p.rep[c.block], c.state)
  }

  /** `d` is a call that the visit of `c` makes. With at most one successor the visit returns
      in its first round, so no sub-block order after the empty one is ever taken. */
  ghost predicate IsChild(p: Program, c: Config, d: Config)
    requires p.Valid() && c.block < |p.next|
  {
    var r := p.rep[c.block];
    var s := After(p, c);
    if |p.next[r]| == 0 then false
    else if |p.next[r]| == 1 then d.state == s && d.block in p.next[r]
    else Follows(p, r, s, d) || exists i :: 0 <= i < |p.orders[r]| && Follows(p, r, FlowAll(p, p.orders[r][i], s), d)
  }

  ghost predicate IsLeaf(p: Program, c: Config)
    requires p.Valid() && c.block < |p.next|
  {
    p.next[p.rep[c.block]] == {}
  }

  /** A sequence of calls, each made by the one before. */
  ghost predicate IsRun(p: Program, run: seq<Config>) {
    && p.Valid() && |run| > 0
    && (forall i :: 0 <= i < |run| ==> run[i].block < |p.next|)
    && (forall i, j :: 0 <= i && j == i + 1 && j < |run| ==> IsChild(p, run[i], run[j]))
  }

  /** `x` is extracted at the leaf of some maximal run from `c`. */
  ghost predicate Extracted(p: Program, c: Config, x: RetAlias) {
    exists run :: IsRun(p, run) && run[0] == c && IsLeaf(p, run[|run| - 1])
                  && x in LeafResults(p, run[|run| - 1])
  }

  ghost function LeafResults(p: Program, c: Config): set<RetAlias>
    requires c.block < |p.rep| && p.rep[c.block] < |p.consts|
  {
    var s := After(p, c);
    p.leaf(s.values, s.aliasSet)
  }

  lemma FollowsInRange(p: Program, r: nat, s: State, d: Config)
    requires p.Valid() && r < |p.next| && Follows(p, r, s, d)
    ensures d.block < |p.next|
  {
  }

  /** A leaf extracts its own results; otherwise a run goes through a child. */
  lemma ExtractedDown(p: Program, c: Config, x: RetAlias)
    requires p.Valid() && c.block < |p.next| && Extracted(p, c, x)
    ensures IsLeaf(p, c) ==> x in LeafResults(p, c)
    ensures !IsLeaf(p, c) ==> exists d :: IsChild(p, c, d) && Extracted(p, d, x)
  {
    var run :| IsRun(p, run) && run[0] == c && IsLeaf(p, run[|run| - 1]) && x in LeafResults(p, run[|run| - 1]);
    if |run| > 1 {
      assert IsChild(p, run[0], run[1]);
      var rest := run[1..];
      assert IsRun(p, rest) by {
        forall i, j | 0 <= i && j == i + 1 && j < |rest| ensures IsChild(p, rest[i], rest[j]) {
          assert IsChild(p, run[i + 1], run[j + 1]);
        }
      }
      assert rest[|rest| - 1] == run[|run| - 1];
      assert Extracted(p, run[1], x);
    }
  }

  lemma ExtractedUp(p: Program, c: Config, d: Config, x: RetAlias)
    requires p.Valid() && c.block < |p.next| && IsChild(p, c, d) && Extracted(p, d, x)
    ensures Extracted(p, c, x)
  {
    var rest :| IsRun(p, rest) && rest[0] == d && IsLeaf(p, rest[|rest| - 1]) && x in LeafResults(p, rest[|rest| - 1]);
    var run := [c] + rest;
    assert IsRun(p, run) by {
      forall i, j | 0 <= i && j == i + 1 && j < |run| ensures IsChild(p, run[i], run[j]) {
        if i > 0 {
          assert IsChild(p, rest[i - 1], rest[j - 1]);
        }
      }
    }
    assert run[|run| - 1] == rest[|rest| - 1];
  }

  lemma LeafExtracts(p: Program, c: Config)
    requires p.Valid() && c.block < |p.next| && IsLeaf(p, c)
    ensures forall x :: Extracted(p, c, x) <==> x in LeafResults(p, c)
  {
    assert IsRun(p, [c]);
    forall x | x in LeafResults(p, c) ensures Extracted(p, c, x) {
      var run := [c];
      assert IsRun(p, run) && run[|run| - 1] == c;
    }
    forall x | Extracted(p, c, x) ensures x in LeafResults(p, c) {
      ExtractedDown(p, c, x);
    }
  }

  // ---------------------------------------------------------------- the search

  /** Nothing but results of runs from `c` has been added. */
  ghost predicate OnlyFrom(p: Program, c: Config, before: set<RetAlias>, after: set<RetAlias>) {
    before <= after && forall x :: x in after ==> x in before || Extracted(p, c, x)
  }

  /** Everything that runs from `c` extract is there. */
  ghost predicate AllOf(p: Program, c: Config, found: set<RetAlias>) {
    forall x :: Extracted(p, c, x) ==> x in found
  }

  /** Everything explored from block `r` in state `s` is there. */
  ghost predicate AllFollowers(p: Program, r: nat, s: State, found: set<RetAlias>)
    requires p.Valid() && r < |p.next|
  {
    forall d :: Follows(p, r, s, d) ==> AllOf(p, d, found)
  }

  /** The call for one arm, with its value recorded. */
  ghost function ArmConfig(t: State, discr: nat, target: nat, value: nat): Config {
    Config(target, t.(constant := t.constant[discr := value]))
  }

  /** The first `k` listed arms are explored. */
  ghost predicate ArmsDone(p: Program, t: State, discr: nat, targets: seq<(nat, nat)>, k: nat, found: set<RetAlias>)
    requires k <= |targets|
  {
    forall i :: 0 <= i < k ==> AllOf(p, ArmConfig(t, discr, targets[i].1, targets[i].0), found)
  }

  lemma ArmsStay(p: Program, t: State, discr: nat, targets: seq<(nat, nat)>, k: nat, a: set<RetAlias>, b: set<RetAlias>)
    requires k <= |targets| && a <= b
    ensures ArmsDone(p, t, discr, targets, k, a) ==> ArmsDone(p, t, discr, targets, k, b)
  {
  }

  lemma ArmsFollow(p: Program, c: Config, r: nat, s: State, t: State, discr: nat, targets: seq<(nat, nat)>,
                   otherwise: nat)
    requires p.Valid() && c.block < |p.next| && r < |p.next| && Decide(p, r, s) == (t, Arms(discr, targets, otherwise))
    requires forall d :: Follows(p, r, s, d) ==> IsChild(p, c, d)
    ensures forall i :: 0 <= i < |targets| ==> IsArm(p, c, r, s, ArmConfig(t, discr, targets[i].1, targets[i].0))
    ensures IsArm(p, c, r, s, ArmConfig(t, discr, otherwise, DEFAULT_ARM))
  {
    forall i | 0 <= i < |targets| ensures IsArm(p, c, r, s, ArmConfig(t, discr, targets[i].1, targets[i].0)) {
      assert Follows(p, r, s, ArmConfig(t, discr, targets[i].1, targets[i].0));
    }
    assert Follows(p, r, s, ArmConfig(t, discr, otherwise, DEFAULT_ARM));
  }

  ghost predicate IsArm(p: Program, c: Config, r: nat, s: State, d: Config)
    requires p.Valid() && c.block < |p.next| && r < |p.next|
  {
    Follows(p, r, s, d) && IsChild(p, c, d)
  }

  lemma ArmsComplete(p: Program, r: nat, s: State, t: State, discr: nat, targets: seq<(nat, nat)>, otherwise: nat,
                     found: set<RetAlias>)
    requires p.Valid() && r < |p.next| && Decide(p, r, s) == (t, Arms(discr, targets, otherwise))
    requires ArmsDone(p, t, discr, targets, |targets|, found)
    requires AllOf(p, ArmConfig(t, discr, otherwise, DEFAULT_ARM), found)
    ensures AllFollowers(p, r, s, found)
  {
  }

  lemma ChildAdds(p: Program, c: Config, d: Config, a: set<RetAlias>, b: set<RetAlias>, e: set<RetAlias>)
    requires p.Valid() && c.block < |p.next| && IsChild(p, c, d)
    requires OnlyFrom(p, c, a, b) && OnlyFrom(p, d, b, e)
    ensures OnlyFrom(p, c, a, e)
  {
    forall x | x in e && x !in b ensures Extracted(p, c, x) {
      ExtractedUp(p, c, d, x);
    }
  }

  class Search {
    const p: Program
    ghost const reached: set<nat>
    ghost const rank: seq<nat>
    var values: Values
    var aliasSet: seq<nat>
    var constant: map<nat, nat>
    var visitTimes: nat
    var ret: set<RetAlias>

    ghost function Snap(): State
      reads this
    {
      State(values, aliasSet, constant)
    }

    ghost function Budget(): nat
      reads this
    {
      if visitTimes <= VISIT_LIMIT then VISIT_LIMIT - visitTimes + 1 else 0
    }

    /** Without decisions and cycles, every call of `check` stands for one chain. */
    ghost predicate Countable() {
      Straight(p) && Ranked(p.next, p.rep, reached, rank)
    }

    /** The calls that a visit of `b` makes into the blocks of `ws`, all told. */
    ghost function CallsOver(b: nat, ws: set<nat>): (n: nat)
      requires Countable() && b in reached && ws <= p.next[p.rep[b]]
    {
      ChainsOver(p.next, p.rep, reached, rank, b, ws)
    }

    ghost function Calls(b: nat): (n: nat)
      requires Countable() && b in reached
    {
      ChainsFrom(p.next, p.rep, reached, rank, b)
    }

    constructor (p: Program, values: Values, aliasSet: seq<nat>, ghost reached: set<nat>, ghost rank: seq<nat>)
      ensures this.reached == reached && this.rank == rank
      ensures this.p == p && this.values == values && this.aliasSet == aliasSet && constant == map[]
      ensures visitTimes == 0 && ret == {}
    {
      this.p, this.values, this.aliasSet := p, values, aliasSet;
      this.reached, this.rank := reached, rank;
      constant, visitTimes, ret := map[], 0, {};
    }

    method AliasBlock(b: nat)
      requires b < |p.consts|
      modifies this`values, this`aliasSet, this`constant
      ensures Snap() == Flow(p, b, old(Snap()))
    {
      var (v, a) := p.flow(b, values, aliasSet);
      constant := InsertAll(constant, p.consts[b]);
      values, aliasSet := v, a;
    }

    /** `split_check`: explores a successor and restores the state. */
    method SplitCheck(bb: nat)
      requires p.Valid() && bb < |p.next|
      modifies this
      ensures Snap() == old(Snap()) && visitTimes >= old(visitTimes)
      ensures Countable() && bb in reached ==> visitTimes <= old(visitTimes) + Calls(bb)
      ensures OnlyFrom(p, Config(bb, old(Snap())), old(ret), ret)
      ensures visitTimes <= VISIT_LIMIT ==> AllOf(p, Config(bb, old(Snap())), ret)
      decreases Budget(), 1
    {
      var backupValues, backupConstant, backupAliasSet := values, constant, aliasSet;
      Check(bb);
      aliasSet := backupAliasSet;
      values := backupValues;
      constant := backupConstant;
    }

    /** `split_check_with_cond`: the same with the arm's value recorded on the way in. */
    method SplitCheckWithCond(bb: nat, discr: nat, value: nat)
      requires p.Valid() && bb < |p.next|
      modifies this
      ensures Snap() == old(Snap()) && visitTimes >= old(visitTimes)
      ensures OnlyFrom(p, Config(bb, old(Snap().(constant := constant[discr := value]))), old(ret), ret)
      ensures visitTimes <= VISIT_LIMIT ==>
                AllOf(p, Config(bb, old(Snap().(constant := constant[discr := value]))), ret)
      decreases Budget(), 1
    {
      var backupValues, backupConstant, backupAliasSet := values, constant, aliasSet;
      constant := constant[discr := value];
      Check(bb);
      aliasSet := backupAliasSet;
      values := backupValues;
      constant := backupConstant;
    }

    /** The flags that `check` computes from the block's switch. */
    method HandleSwitch(r: nat) returns (decision: Decision)
      requires p.Valid() && r < |p.next|
      modifies this`values, this`aliasSet
      ensures (Snap(), decision) == Decide(p, r, old(Snap()))
      ensures p.hasSub[r] || p.switches[r].NoSwitch? ==> decision == All && Snap() == old(Snap())
      ensures !p.hasSub[r] && p.switches[r].OnConstant? ==>
                decision.Fixed?
                && GoesTo(p.switches[r].targets, p.switches[r].otherwise, p.switches[r].value, decision.target)
      ensures forall e :: KnownAt(p, r, old(Snap()), e) ==>
                decision.Fixed?
                && GoesTo(p.switches[r].targets, p.switches[r].otherwise, old(constant)[e], decision.target)
    {
      var singleTarget, swVal, discr := false, 0, 0;
      var useArms := false;
      var switch := p.switches[r];
      if switch.NoSwitch? || p.hasSub[r] {
        return All;
      }
      match switch {
        case OnPlace(_, _) =>
          var (v, a, place, local) := p.place(r, values, aliasSet);
          values, aliasSet := v, a;
          if local in p.discMap {
            var father := p.discMap[local];
            if father in constant && constant[father] != DEFAULT_ARM {
              singleTarget, swVal := true, constant[father];
            }
            if local == place {
              discr, useArms := father, true;
            }
          }
        case OnConstant(value, _, _) =>
          singleTarget, swVal := true, value;
      }
      if singleTarget {
        var swTarget := FindArm(switch.targets, swVal);
        if swTarget == 0 {
          swTarget := switch.otherwise;
        }
        decision := Fixed(swTarget);
      } else if useArms {
        decision := Arms(discr, switch.targets, switch.otherwise);
      } else {
        decision := All;
      }
    }

    method FindArm(targets: seq<(nat, nat)>, value: nat) returns (target: nat)
      ensures target == ListedArm(targets, value)
    {
      target := 0;
      var k := 0;
      while k < |targets|
        invariant 0 <= k <= |targets| && target == 0
        invariant ListedArm(targets, value) == ListedArm(targets[k..], value)
      {
        assert targets[k..][0] == targets[k] && targets[k..][1..] == targets[k + 1..];
        if targets[k].0 == value {
          target := targets[k].1;
          return;
        }
        k := k + 1;
      }
    }

    /** One round of the order loop for a block with several successors. */
    method Branch(r: nat, ghost c: Config)
      requires p.Valid() && c.block < |p.next| && r < |p.next|
      requires forall d :: Follows(p, r, Snap(), d) ==> IsChild(p, c, d)
      modifies this
      ensures visitTimes >= old(visitTimes)
      ensures OnlyFrom(p, c, old(ret), ret)
      ensures visitTimes <= VISIT_LIMIT ==> AllFollowers(p, r, old(Snap()), ret)
      ensures Countable() && c.block in reached && r == p.rep[c.block] ==>
                visitTimes <= old(visitTimes) + CallsOver(c.block, p.next[r])
      decreases Budget(), 5
    {
      ghost var s, ret0 := Snap(), ret;
      var decision := HandleSwitch(r);
      assert Straight(p) ==> decision == All;
      ghost var t := Snap();
      match decision {
        case Fixed(target) =>
          assert Follows(p, r, s, Config(target, t));
          FollowsInRange(p, r, s, Config(target, t));
          Check(target);
          ChildAdds(p, c, Config(target, t), ret0, ret0, ret);
        case Arms(discr, targets, otherwise) =>
          ArmsFollow(p, c, r, s, t, discr, targets, otherwise);
          TakeArms(r, discr, targets, otherwise, c, s);
          if visitTimes <= VISIT_LIMIT {
            ArmsComplete(p, r, s, t, discr, targets, otherwise, ret);
          }
        case All =>
          TakeAll(r, c, s);
      }
    }

    /** Each listed arm in turn, then the default one. */
    method TakeArms(r: nat, discr: nat, targets: seq<(nat, nat)>, otherwise: nat, ghost c: Config, ghost s: State)
      requires p.Valid() && c.block < |p.next| && r < |p.next|
      requires forall i :: 0 <= i < |targets| ==>
                 IsArm(p, c, r, s, ArmConfig(Snap(), discr, targets[i].1, targets[i].0))
      requires IsArm(p, c, r, s, ArmConfig(Snap(), discr, otherwise, DEFAULT_ARM))
      modifies this
      ensures visitTimes >= old(visitTimes)
      ensures OnlyFrom(p, c, old(ret), ret)
      ensures visitTimes <= VISIT_LIMIT ==>
                ArmsDone(p, old(Snap()), discr, targets, |targets|, ret)
                && AllOf(p, ArmConfig(old(Snap()), discr, otherwise, DEFAULT_ARM), ret)
      decreases Budget(), 4
    {
      ghost var t, ret0 := Snap(), ret;
      TakeListedArms(r, discr, targets, c, s);
      ghost var before := ret;
      TakeArm(r, discr, otherwise, DEFAULT_ARM, c, s, ret0);
      ArmsStay(p, t, discr, targets, |targets|, before, ret);
    }

    method TakeListedArms(r: nat, discr: nat, targets: seq<(nat, nat)>, ghost c: Config, ghost s: State)
      requires p.Valid() && c.block < |p.next| && r < |p.next|
      requires forall i :: 0 <= i < |targets| ==>
                 IsArm(p, c, r, s, ArmConfig(Snap(), discr, targets[i].1, targets[i].0))
      modifies this
      ensures Snap() == old(Snap()) && visitTimes >= old(visitTimes)
      ensures OnlyFrom(p, c, old(ret), ret)
      ensures visitTimes <= VISIT_LIMIT ==> ArmsDone(p, old(Snap()), discr, targets, |targets|, ret)
      decreases Budget(), 3
    {
      ghost var t, ret0, visits := Snap(), ret, visitTimes;
      var k := 0;
      while k < |targets|
        invariant 0 <= k <= |targets| && Snap() == t && visitTimes >= visits
        invariant OnlyFrom(p, c, ret0, ret)
        invariant visitTimes <= VISIT_LIMIT ==> ArmsDone(p, t, discr, targets, k, ret)
      {
        if visitTimes <= VISIT_LIMIT {
          ghost var before := ret;
          TakeArm(r, discr, targets[k].1, targets[k].0, c, s, ret0);
          ArmsStay(p, t, discr, targets, k, before, ret);
        }
        k := k + 1;
      }
    }

    method TakeArm(r: nat, discr: nat, target: nat, value: nat, ghost c: Config, ghost s: State,
                   ghost ret0: set<RetAlias>)
      requires p.Valid() && c.block < |p.next| && r < |p.next| && OnlyFrom(p, c, ret0, ret)
      requires IsArm(p, c, r, s, ArmConfig(Snap(), discr, target, value))
      modifies this
      ensures Snap() == old(Snap()) && visitTimes >= old(visitTimes)
      ensures OnlyFrom(p, c, ret0, ret) && old(ret) <= ret
      ensures visitTimes <= VISIT_LIMIT ==> AllOf(p, ArmConfig(old(Snap()), discr, target, value), ret)
      decreases Budget(), 2
    {
      ghost var d, before := ArmConfig(Snap(), discr, target, value), ret;
      FollowsInRange(p, r, s, d);
      SplitCheckWithCond(target, discr, value);
      ChildAdds(p, c, d, ret0, before, ret);
    }

    method TakeAll(r: nat, ghost c: Config, ghost s: State)
      requires p.Valid() && c.block < |p.next| && r < |p.next|
      requires (Snap(), All) == Decide(p, r, s)
      requires forall d :: Follows(p, r, s, d) ==> IsChild(p, c, d)
      modifies this
      ensures visitTimes >= old(visitTimes)
      ensures OnlyFrom(p, c, old(ret), ret)
      ensures visitTimes <= VISIT_LIMIT ==> AllFollowers(p, r, s, ret)
      ensures Countable() && c.block in reached && r == p.rep[c.block] ==>
                visitTimes <= old(visitTimes) + CallsOver(c.block, p.next[r])
      decreases Budget(), 2
    {
      ghost var t, ret0, visits := Snap(), ret, visitTimes;
      var todo := p.next[r];
      while todo != {}
        invariant todo <= p.next[r] && Snap() == t && visitTimes >= visits
        invariant OnlyFrom(p, c, ret0, ret)
        invariant visitTimes <= VISIT_LIMIT ==> forall w :: w in p.next[r] && w !in todo ==> AllOf(p, Config(w, t), ret)
        invariant Countable() && c.block in reached && r == p.rep[c.block] ==>
                    visitTimes + CallsOver(c.block, todo) <= visits + CallsOver(c.block, p.next[r])
        decreases todo
      {
        var w :| w in todo;
        if Countable() && c.block in reached && r == p.rep[c.block] {
          ChainsWithout(p.next, p.rep, reached, rank, c.block, todo, w);
        }
        todo := todo - {w};
        if visitTimes <= VISIT_LIMIT {
          ghost var before := ret;
          assert Follows(p, r, s, Config(w, t));
          SplitCheck(w);
          ChildAdds(p, c, Config(w, t), ret0, before, ret);
        }
      }
    }

    /** `check`. What it adds to the results comes from maximal runs out of this call, and
        unless the visit limit was passed, everything such runs extract is added. */
    method Check(bb: nat)
      requires p.Valid() && bb < |p.next|
      modifies this
      ensures visitTimes > old(visitTimes)
      ensures Countable() && bb in reached ==> visitTimes <= old(visitTimes) + Calls(bb)
      ensures OnlyFrom(p, Config(bb, old(Snap())), old(ret), ret)
      ensures visitTimes <= VISIT_LIMIT ==> AllOf(p, Config(bb, old(Snap())), ret)
      decreases Budget(), 0
    {
      visitTimes := visitTimes + 1;
      if visitTimes > VISIT_LIMIT {
        return;
      }
      ghost var c, ret0 := Config(bb, Snap()), ret;
      var r := p.rep[bb];
      AliasBlock(r);
      ghost var s := Snap();
      if |p.next[r]| == 0 {
        ret := ret + p.leaf(values, aliasSet);
        LeafExtracts(p, c);
      } else if |p.next[r]| == 1 {
        var w :| w in p.next[r];
        OnlySuccessor(p, c, w);
        if Countable() && bb in reached {
          ChainsWithout(p.next, p.rep, reached, rank, bb, p.next[r], w);
        }
        Check(w);
        ChildAdds(p, c, Config(w, s), ret0, ret0, ret);
        CompleteFromChildren(p, c, ret);
      } else {
        CheckOrders(r, c, s);
      }
    }

    /** The order loop: the empty order first, then the given ones, each from the same state. */
    method CheckOrders(r: nat, ghost c: Config, ghost s: State)
      requires p.Valid() && c.block < |p.next| && r == p.rep[c.block] && |p.next[r]| > 1
      requires Snap() == s == After(p, c)
      modifies this
      ensures visitTimes >= old(visitTimes)
      ensures OnlyFrom(p, c, old(ret), ret)
      ensures visitTimes <= VISIT_LIMIT ==> AllOf(p, c, ret)
      ensures Countable() && c.block in reached ==> visitTimes <= old(visitTimes) + CallsOver(c.block, p.next[r])
      decreases Budget(), 6
    {
      ghost var ret0, visits := ret, visitTimes;
      var backupValues, backupConstant, backupAliasSet := values, constant, aliasSet;
      Branch(r, c);
      var k := 0;
      while k < |p.orders[r]|
        invariant 0 <= k <= |p.orders[r]| && visitTimes >= visits
        invariant OnlyFrom(p, c, ret0, ret)
        invariant visitTimes <= VISIT_LIMIT ==> OrdersDone(p, r, s, k, ret)
        invariant Countable() && c.block in reached ==> visitTimes <= visits + CallsOver(c.block, p.next[r])
      {
        ghost var before := ret;
        aliasSet := backupAliasSet;
        values := backupValues;
        constant := backupConstant;
        RunOrder(p.orders[r][k]);
        Branch(r, c);
        if visitTimes <= VISIT_LIMIT {
          OrdersStay(p, r, s, k, before, ret);
        }
        k := k + 1;
      }
      if visitTimes <= VISIT_LIMIT {
        AllOrdersDone(p, c, ret);
      }
    }

    method RunOrder(order: seq<nat>)
      requires forall k :: 0 <= k < |order| ==> order[k] < |p.consts|
      modifies this`values, this`aliasSet, this`constant
      ensures Snap() == FlowAll(p, order, old(Snap()))
    {
      var k := 0;
      while k < |order|
        invariant 0 <= k <= |order|
        invariant FlowAll(p, order, old(Snap())) == FlowAll(p, order[k..], Snap())
      {
        assert order[k..][0] == order[k] && order[k..][1..] == order[k + 1..];
        AliasBlock(order[k]);
        k := k + 1;
      }
    }
  }

  lemma OnlySuccessor(p: Program, c: Config, w: nat)
    requires p.Valid() && c.block < |p.next| && |p.next[p.rep[c.block]]| == 1 && w in p.next[p.rep[c.block]]
    ensures forall d :: IsChild(p, c, d) <==> d == Config(w, After(p, c))
  {
    var nx := p.next[p.rep[c.block]];
    assert |nx - {w}| == 0;
  }

  lemma FollowersStay(p: Program, r: nat, s: State, a: set<RetAlias>, b: set<RetAlias>)
    requires p.Valid() && r < |p.next| && a <= b && AllFollowers(p, r, s, a)
    ensures AllFollowers(p, r, s, b)
  {
    forall d | Follows(p, r, s, d) ensures AllOf(p, d, b) {
      assert AllOf(p, d, a);
    }
  }

  /** The empty order and the first `k` others are explored. */
  ghost predicate OrdersDone(p: Program, r: nat, s: State, k: nat, found: set<RetAlias>)
    requires p.Valid() && r < |p.next| && k <= |p.orders[r]|
  {
    AllFollowers(p, r, s, found) && forall i :: 0 <= i < k ==> AllFollowers(p, r, FlowAll(p, p.orders[r][i], s), found)
  }

  lemma OrdersStay(p: Program, r: nat, s: State, k: nat, a: set<RetAlias>, b: set<RetAlias>)
    requires p.Valid() && r < |p.next| && k < |p.orders[r]| && a <= b && OrdersDone(p, r, s, k, a)
    requires AllFollowers(p, r, FlowAll(p, p.orders[r][k], s), b)
    ensures OrdersDone(p, r, s, k + 1, b)
  {
    FollowersStay(p, r, s, a, b);
    forall i | 0 <= i < k ensures AllFollowers(p, r, FlowAll(p, p.orders[r][i], s), b) {
      FollowersStay(p, r, FlowAll(p, p.orders[r][i], s), a, b);
    }
  }

  lemma AllOrdersDone(p: Program, c: Config, found: set<RetAlias>)
    requires p.Valid() && c.block < |p.next| && |p.next[p.rep[c.block]]| > 1
    requires OrdersDone(p, p.rep[c.block], After(p, c), |p.orders[p.rep[c.block]]|, found)
    ensures AllOf(p, c, found)
  {
    CompleteFromChildren(p, c, found);
  }

  lemma CompleteFromChildren(p: Program, c: Config, found: set<RetAlias>)
    requires p.Valid() && c.block < |p.next| && !IsLeaf(p, c)
    ensures (forall d :: IsChild(p, c, d) ==> AllOf(p, d, found)) ==> AllOf(p, c, found)
  {
    if forall d :: IsChild(p, c, d) ==> AllOf(p, d, found) {
      forall x | Extracted(p, c, x) ensures x in found {
        ExtractedDown(p, c, x);
      }
    }
  }

  // ---------------------------------------------------------------- meet over all paths

  /** No component has sub-blocks and no switch is on a constant or a tracked discriminant. */
  ghost predicate Straight(p: Program) {
    p.Valid() && forall b :: 0 <= b < |p.next| ==> !p.hasSub[b] && Undecided(p, b)
  }

  ghost predicate Undecided(p: Program, b: nat)
    requires b < |p.switches|
  {
    p.switches[b].NoSwitch? || (p.switches[b].OnPlace? && forall v, a :: p.place(b, v, a).3 !in p.discMap)
  }

  /** The state that block `r` hands to its successors: its effect and, before several of them,
      the projection of its switch operand. */
  ghost function Passed(p: Program, r: nat, s: State): State
    requires p.Valid() && r < |p.next|
  {
    if |p.next[r]| > 1 then Decide(p, r, Flow(p, r, s)).0 else Flow(p, r, s)
  }

  /** The state folded along a path of the condensed graph. */
  ghost function FoldPath(p: Program, path: seq<nat>, s: State): State
    requires p.Valid() && forall i :: 0 <= i < |path| ==> path[i] < |p.next|
    decreases |path|
  {
    if path == [] then s else FoldPath(p, path[1..], Passed(p, p.rep[path[0]], s))
  }

  /** `x` is extracted from the state folded along some maximal path from `b`. */
  ghost predicate OverPaths(p: Program, b: nat, s: State, x: RetAlias)
    requires p.Valid()
  {
    exists path :: ToLeaf(p, b, path) && x in PathResults(p, path, s)
  }

  ghost predicate ToLeaf(p: Program, b: nat, path: seq<nat>)
    requires p.Valid()
  {
    Chain(p.next, p.rep, path) && path[0] == b && p.next[p.rep[path[|path| - 1]]] == {}
  }

  ghost function PathResults(p: Program, path: seq<nat>, s: State): set<RetAlias>
    requires p.Valid() && Chain(p.next, p.rep, path)
  {
    var t := FoldPath(p, path, s);
    p.leaf(t.values, t.aliasSet)
  }

  lemma StraightChild(p: Program, c: Config, d: Config)
    requires Straight(p) && c.block < |p.next|
    ensures IsChild(p, c, d) <==> d.state == Passed(p, p.rep[c.block], c.state) && d.block in p.next[p.rep[c.block]]
  {
  }

  lemma FoldCons(p: Program, b: nat, tail: seq<nat>, s: State)
    requires p.Valid() && b < |p.next| && forall i :: 0 <= i < |tail| ==> tail[i] < |p.next|
    ensures FoldPath(p, [b] + tail, s) == FoldPath(p, tail, Passed(p, p.rep[b], s))
  {
    assert ([b] + tail)[1..] == tail;
  }

  /** Every run of calls spells a path. */
  lemma {:induction false} RunSpellsPath(p: Program, run: seq<Config>) returns (path: seq<nat>)
    requires Straight(p) && IsRun(p, run) && IsLeaf(p, run[|run| - 1])
    ensures ToLeaf(p, run[0].block, path)
    ensures LeafResults(p, run[|run| - 1]) == PathResults(p, path, run[0].state)
    decreases |run|
  {
    var c := run[0];
    if |run| == 1 {
      path := [c.block];
      FoldCons(p, c.block, [], c.state);
      assert path == [c.block] + [];
    } else {
      var rest := run[1..];
      assert IsRun(p, rest) by {
        forall i, j | 0 <= i && j == i + 1 && j < |rest| ensures IsChild(p, rest[i], rest[j]) {
          assert IsChild(p, run[i + 1], run[j + 1]);
        }
      }
      assert rest[|rest| - 1] == run[|run| - 1];
      var tail := RunSpellsPath(p, rest);
      assert IsChild(p, run[0], run[1]);
      StraightChild(p, run[0], run[1]);
      path := [c.block] + tail;
      FoldCons(p, c.block, tail, c.state);
      ChainCons(p, c.block, tail);
    }
  }

  lemma ChainCons(p: Program, b: nat, tail: seq<nat>)
    requires p.Valid() && b < |p.next| && Chain(p.next, p.rep, tail) && tail[0] in p.next[p.rep[b]]
    ensures Chain(p.next, p.rep, [b] + tail)
  {
    var path := [b] + tail;
    forall i, j | 0 <= i && j == i + 1 && j < |path| ensures path[j] in p.next[p.rep[path[i]]] {
      if i > 0 {
        assert tail[j - 1] in p.next[p.rep[tail[i - 1]]];
      }
    }
  }

  /** Every path is the trace of a run. */
  lemma {:induction false} PathIsExtracted(p: Program, b: nat, path: seq<nat>, s: State, x: RetAlias)
    requires Straight(p) && ToLeaf(p, b, path) && x in PathResults(p, path, s)
    ensures b < |p.next| && Extracted(p, Config(b, s), x)
    decreases |path|
  {
    var c := Config(b, s);
    if |path| == 1 {
      assert path == [b] + [];
      FoldCons(p, b, [], s);
      LeafExtracts(p, c);
    } else {
      var tail := path[1..];
      assert path == [b] + tail;
      FoldCons(p, b, tail, s);
      assert Chain(p.next, p.rep, tail) by {
        forall i, j | 0 <= i && j == i + 1 && j < |tail| ensures tail[j] in p.next[p.rep[tail[i]]] {
          assert path[j + 1] in p.next[p.rep[path[i + 1]]];
        }
      }
      assert tail[|tail| - 1] == path[|path| - 1];
      var d := Config(path[1], Passed(p, p.rep[b], s));
      PathIsExtracted(p, path[1], tail, d.state, x);
      assert path[1] in p.next[p.rep[path[0]]];
      StraightChild(p, c, d);
      ExtractedUp(p, c, d, x);
    }
  }

  lemma RunsArePaths(p: Program, b: nat, s: State, x: RetAlias)
    requires Straight(p) && b < |p.next|
    ensures Extracted(p, Config(b, s), x) <==> OverPaths(p, b, s, x)
  {
    if Extracted(p, Config(b, s), x) {
      var run :| IsRun(p, run) && run[0] == Config(b, s) && IsLeaf(p, run[|run| - 1])
                 && x in LeafResults(p, run[|run| - 1]);
      var path := RunSpellsPath(p, run);
      assert ToLeaf(p, b, path) && x in PathResults(p, path, s);
    }
    if OverPaths(p, b, s, x) {
      var path :| ToLeaf(p, b, path) && x in PathResults(p, path, s);
      PathIsExtracted(p, b, path, s, x);
    }
  }

  /** Meet over all paths: the results of the restoring search are never more than what
      `merge_results` gives on the states folded along the maximal paths from block 0, and they
      are exactly that when no more chains start at block 0 than visits are allowed. */
  method AnalyseStraight(p: Program, values: Values, aliasSet: seq<nat>, ghost reached: set<nat>, ghost rank: seq<nat>)
    returns (ret: set<RetAlias>, visits: nat)
    requires Straight(p) && Ranked(p.next, p.rep, reached, rank)
    ensures visits <= ChainsFrom(p.next, p.rep, reached, rank, 0)
    ensures forall x :: x in ret ==> OverPaths(p, 0, State(values, aliasSet, map[]), x)
    ensures visits <= VISIT_LIMIT ==> forall x :: OverPaths(p, 0, State(values, aliasSet, map[]), x) ==> x in ret
    ensures ChainsFrom(p.next, p.rep, reached, rank, 0) <= VISIT_LIMIT ==>
              forall x :: x in ret <==> OverPaths(p, 0, State(values, aliasSet, map[]), x)
  {
    var search := new Search(p, values, aliasSet, reached, rank);
    search.Check(0);
    ret, visits := search.ret, search.visitTimes;
    forall x ensures Extracted(p, Config(0, State(values, aliasSet, map[])), x)
                     <==> OverPaths(p, 0, State(values, aliasSet, map[]), x)
    {
      RunsArePaths(p, 0, State(values, aliasSet, map[]), x);
    }
  }

  // ---------------------------------------------------------------- arenas along runs

  /** Blocks and switch operands keep the arena in step with its parents, as `alibsbb`, the replay
      of summaries and `projection` do. */
  ghost predicate KeepsArena(p: Program, n: nat) {
    && (forall b, v, a :: ArenaInv(v, a, n) ==> ArenaInv(p.flow(b, v, a).0, p.flow(b, v, a).1, n))
    && (forall b, v, a :: ArenaInv(v, a, n) ==> ArenaInv(p.place(b, v, a).0, p.place(b, v, a).1, n))
  }

  lemma {:induction false} FlowAllKeepsArena(p: Program, bs: seq<nat>, s: State, n: nat)
    requires KeepsArena(p, n) && ArenaInv(s.values, s.aliasSet, n) && forall k :: 0 <= k < |bs| ==> bs[k] < |p.consts|
    ensures ArenaInv(FlowAll(p, bs, s).values, FlowAll(p, bs, s).aliasSet, n)
    decreases |bs|
  {
    if bs != [] {
      FlowAllKeepsArena(p, bs[1..], Flow(p, bs[0], s), n);
    }
  }

  lemma FollowsKeepsArena(p: Program, r: nat, s: State, d: Config, n: nat)
    requires p.Valid() && r < |p.next| && Follows(p, r, s, d)
    requires KeepsArena(p, n) && ArenaInv(s.values, s.aliasSet, n)
    ensures ArenaInv(d.state.values, d.state.aliasSet, n)
  {
    var t := Decide(p, r, s).0;
    assert d.state.values == t.values && d.state.aliasSet == t.aliasSet;
  }

  lemma ChildKeepsArena(p: Program, c: Config, d: Config, n: nat)
    requires p.Valid() && c.block < |p.next| && IsChild(p, c, d) && KeepsArena(p, n)
    requires ArenaInv(After(p, c).values, After(p, c).aliasSet, n)
    ensures ArenaInv(d.state.values, d.state.aliasSet, n)
  {
    var r, s := p.rep[c.block], After(p, c);
    if |p.next[r]| > 1 {
      if Follows(p, r, s, d) {
        FollowsKeepsArena(p, r, s, d, n);
      } else {
        var k :| 0 <= k < |p.orders[r]| && Follows(p, r, FlowAll(p, p.orders[r][k], s), d);
        FlowAllKeepsArena(p, p.orders[r][k], s, n);
        FollowsKeepsArena(p, r, FlowAll(p, p.orders[r][k], s), d, n);
      }
    }
  }

  /** Then every call of every run starts in such a state and hands one to `merge_results`. */
  lemma {:induction false} ArenaAlongRun(p: Program, run: seq<Config>, i: nat, n: nat)
    requires IsRun(p, run) && i < |run| && KeepsArena(p, n) && ArenaInv(run[0].state.values, run[0].state.aliasSet, n)
    ensures ArenaInv(run[i].state.values, run[i].state.aliasSet, n)
    ensures ArenaInv(After(p, run[i]).values, After(p, run[i]).aliasSet, n)
    decreases i
  {
    if i > 0 {
      ArenaAlongRun(p, run, i - 1, n);
      assert IsChild(p, run[i - 1], run[i]);
      ChildKeepsArena(p, run[i - 1], run[i], n);
    }
  }

  // ---------------------------------------------------------------- path consistency

  /** A visit of block `r` records no constant for `e`. */
  ghost predicate RecordsNothing(p: Program, r: nat, e: nat)
    requires p.Valid() && r < |p.next|
  {
    && NoKey(p.consts[r], e)
    && forall i, k :: 0 <= i < |p.orders[r]| && 0 <= k < |p.orders[r][i]| ==> NoKey(p.consts[p.orders[r][i][k]], e)
  }

  ghost predicate NoKey(pairs: seq<(nat, nat)>, e: nat) {
    forall i :: 0 <= i < |pairs| ==> pairs[i].0 != e
  }

  /** The path has taken the arm of value `v` for the discriminant of `e`. */
  ghost predicate Knows(s: State, e: nat, v: nat) {
    e in s.constant && s.constant[e] == v && v != DEFAULT_ARM
  }

  lemma {:induction false} InsertKeeps(m: map<nat, nat>, pairs: seq<(nat, nat)>, e: nat)
    requires e in m && NoKey(pairs, e)
    ensures e in InsertAll(m, pairs) && InsertAll(m, pairs)[e] == m[e]
    decreases |pairs|
  {
    if pairs != [] {
      InsertKeeps(m[pairs[0].0 := pairs[0].1], pairs[1..], e);
    }
  }

  lemma {:induction false} FlowAllKeeps(p: Program, bs: seq<nat>, s: State, e: nat, v: nat)
    requires forall k :: 0 <= k < |bs| ==> bs[k] < |p.consts| && NoKey(p.consts[bs[k]], e)
    requires Knows(s, e, v)
    ensures Knows(FlowAll(p, bs, s), e, v)
    decreases |bs|
  {
    if bs != [] {
      InsertKeeps(s.constant, p.consts[bs[0]], e);
      FlowAllKeeps(p, bs[1..], Flow(p, bs[0], s), e, v);
    }
  }

  /** Branching never changes a constant that is already known. */
  lemma FollowsKeeps(p: Program, r: nat, s: State, d: Config, e: nat, v: nat)
    requires p.Valid() && r < |p.next| && Follows(p, r, s, d) && Knows(s, e, v)
    ensures Knows(d.state, e, v)
  {
  }

  lemma ChildKeeps(p: Program, c: Config, d: Config, e: nat, v: nat)
    requires p.Valid() && c.block < |p.next| && IsChild(p, c, d) && Knows(c.state, e, v)
    requires RecordsNothing(p, p.rep[c.block], e)
    ensures Knows(d.state, e, v)
  {
    var r, s := p.rep[c.block], After(p, c);
    InsertKeeps(c.state.constant, p.consts[r], e);
    if |p.next[r]| > 1 {
      if Follows(p, r, s, d) {
        FollowsKeeps(p, r, s, d, e, v);
      } else {
        var i :| 0 <= i < |p.orders[r]| && Follows(p, r, FlowAll(p, p.orders[r][i], s), d);
        FlowAllKeeps(p, p.orders[r][i], s, e, v);
        FollowsKeeps(p, r, FlowAll(p, p.orders[r][i], s), d, e, v);
      }
    }
  }

  /** Along a run a known arm stays known until a block records a constant for the enum. */
  lemma {:induction false} RunKeeps(p: Program, run: seq<Config>, i: nat, j: nat, e: nat, v: nat)
    requires IsRun(p, run) && i <= j < |run| && Knows(run[i].state, e, v)
    requires forall k :: i <= k < j ==> RecordsNothing(p, p.rep[run[k].block], e)
    ensures Knows(run[j].state, e, v)
    decreases j - i
  {
    if i < j {
      assert IsChild(p, run[i], run[i + 1]);
      ChildKeeps(p, run[i], run[i + 1], e, v);
      RunKeeps(p, run, i + 1, j, e, v);
    }
  }

  /** Block `r` switches, among several successors, on the discriminant of `e`. */
  ghost predicate SwitchesOn(p: Program, c: Config, e: nat)
    requires p.Valid() && c.block < |p.next|
  {
    var r, s := p.rep[c.block], After(p, c);
    && |p.next[r]| > 1 && !p.hasSub[r] && p.switches[r].OnPlace?
    && var local := p.place(r, s.values, s.aliasSet).3; local in p.discMap && p.discMap[local] == e
  }

  /** The call `d` made by the visit of `c` takes the arm for value `v` of a switch on `e`: one of
      the listed arms, or the only one possible because `v` is already known. */
  ghost predicate TakesArm(p: Program, c: Config, d: Config, e: nat, v: nat)
    requires p.Valid() && c.block < |p.next|
  {
    var r, s := p.rep[c.block], After(p, c);
    && SwitchesOn(p, c, e)
    && match Decide(p, r, s)
       case (t, Arms(e', targets, _)) =>
         exists k :: 0 <= k < |targets| && targets[k].0 == v && d == ArmConfig(t, e', targets[k].1, v)
       case (t, Fixed(target)) => e in s.constant && s.constant[e] == v && d == Config(target, t)
       case _ => false
  }

  /** Path consistency: once a run has taken the arm for `v` of a switch on `e`, every later
      switch on `e` along the run takes the arm for `v` again, or the default arm where `v` is
      not listed, until a block on the way records a constant for `e`. The largest value is the
      mark of the default arm and cannot be told from it. */
  lemma PathConsistency(p: Program, run: seq<Config>, i: nat, j: nat, e: nat, v: nat)
    requires IsRun(p, run) && i < j && j + 1 < |run| && v != DEFAULT_ARM
    requires TakesArm(p, run[i], run[i + 1], e, v) && SwitchesOn(p, run[j], e)
    requires forall k :: i < k <= j ==> RecordsNothing(p, p.rep[run[k].block], e)
    ensures var switch := p.switches[p.rep[run[j].block]];
            GoesTo(switch.targets, switch.otherwise, v, run[j + 1].block)
    ensures TakesArm(p, run[j], run[j + 1], e, v)
    ensures Knows(run[j + 1].state, e, v)
  {
    assert Knows(run[i + 1].state, e, v);
    RunKeeps(p, run, i + 1, j, e, v);
    var r := p.rep[run[j].block];
    InsertKeeps(run[j].state.constant, p.consts[r], e);
    assert IsChild(p, run[j], run[j + 1]);
  }

  /** A switch on the whole discriminant of `e`, while its value is unknown, explores every listed arm
      and the default one, each with its value recorded and nothing else changed. */
  lemma UnknownTakesEvery(p: Program, c: Config, e: nat, d: Config)
    requires p.Valid() && c.block < |p.next| && SwitchesOn(p, c, e)
    requires var s := After(p, c); e in s.constant ==> s.constant[e] == DEFAULT_ARM
    requires var (_, _, place, local) := p.place(p.rep[c.block], After(p, c).values, After(p, c).aliasSet);
             place == local
    ensures var s, switch := After(p, c), p.switches[p.rep[c.block]];
            var (v, a, _, _) := p.place(p.rep[c.block], s.values, s.aliasSet);
            IsChild(p, c, d) <==>
            || d == Config(switch.otherwise, State(v, a, s.constant[e := DEFAULT_ARM]))
            || exists i :: 0 <= i < |switch.targets|
                           && d == Config(switch.targets[i].1, State(v, a, s.constant[e := switch.targets[i].0]))
  {
    assert p.orders[p.rep[c.block]] == [];
  }
}
