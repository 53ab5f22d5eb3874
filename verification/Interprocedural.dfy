/** The interprocedural recursion of the MoP analysis: `check` analyses callees on demand
    through `alias_bbcall`, guarded by `recursion_set` and cached in `fn_map`. Block effects
    are arbitrary functions; what is at stake is the recursion and what the summaries are. */
module Interprocedural {
  import Explorer

  /** A block of the condensed graph: the functions it calls (those whose body is available
      and whose arguments may be dropped), its successors and its sub-block orders. */
  datatype Block = Block(calls: seq<nat>, next: set<nat>, orders: seq<seq<nat>>)

  datatype Body = Body(rep: seq<nat>, blocks: seq<Block>)
  {
    ghost predicate Valid() {
      && |rep| == |blocks| > 0
      && (forall b :: 0 <= b < |rep| ==> rep[b] < |blocks|)
      && (forall b, w :: 0 <= b < |blocks| && w in blocks[b].next ==> w < |blocks|)
      && (forall b, i, k :: 0 <= b < |blocks| && 0 <= i < |blocks[b].orders| && 0 <= k < |blocks[b].orders[i]|
            ==> blocks[b].orders[i][k] < |blocks|)
    }

    /** The rounds of the order loop, the empty one first. */
    function Rounds(r: nat): (orders: seq<seq<nat>>)
      requires r < |blocks|
    {
      [[]] + blocks[r].orders
    }
  }

  type State = nat
  type Facts = set<nat>

  /** The bodies and what they do: the effect of a block, the replay of a summary, what a leaf
      extracts, and whether a switch lets a successor through. */
  datatype Code = Code(
    program: map<nat, Body>,
    transfer: (nat, nat, State) -> State,
    replay: (State, Facts) -> State,
    leaf: (nat, State) -> Facts,
    keep: (nat, nat, State) -> bool)
  {
    ghost predicate Valid() {
      forall f :: f in program ==> program[f].Valid()
    }

    ghost predicate Has(fn: nat, b: nat) {
      fn in program && program[fn].Valid() && b < |program[fn].blocks|
    }

    ghost predicate HasAll(fn: nat, bs: seq<nat>) {
      forall k :: 0 <= k < |bs| ==> Has(fn, bs[k])
    }
  }

  // ---------------------------------------------------------------- one block, with known summaries

  type Cache = map<nat, Facts>

  /** Every called function with a body has a summary, unless it is under analysis. */
  ghost predicate Known(code: Code, m: Cache, busy: set<nat>, calls: seq<nat>) {
    forall i :: 0 <= i < |calls| && calls[i] in code.program && calls[i] !in busy ==> calls[i] in m
  }

  /** The calls of a block, one after the other; those under analysis do nothing. */
  ghost function ReplayAll(code: Code, m: Cache, busy: set<nat>, calls: seq<nat>, s: State): State
    decreases |calls|
  {
    if calls == [] then s
    else
      var k := |calls| - 1;
      ReplayOne(code, m, busy, calls[k], ReplayAll(code, m, busy, calls[..k], s))
  }

  ghost function ReplayOne(code: Code, m: Cache, busy: set<nat>, target: nat, s: State): State {
    if target in code.program && target !in busy && target in m then code.replay(s, m[target]) else s
  }

  ghost function PassBlock(code: Code, m: Cache, busy: set<nat>, fn: nat, b: nat, s: State): State
    requires code.Has(fn, b)
  {
    ReplayAll(code, m, busy, code.program[fn].blocks[b].calls, code.transfer(fn, b, s))
  }

  ghost predicate KnownIn(code: Code, m: Cache, busy: set<nat>, fn: nat, b: nat)
    requires code.Has(fn, b)
  {
    Known(code, m, busy, code.program[fn].blocks[b].calls)
  }

  /** The blocks of a sub-block order. */
  ghost function PassAll(code: Code, m: Cache, busy: set<nat>, fn: nat, bs: seq<nat>, s: State): State
    requires code.HasAll(fn, bs)
    decreases |bs|
  {
    if bs == [] then s
    else
      var k := |bs| - 1;
      PassBlock(code, m, busy, fn, bs[k], PassAll(code, m, busy, fn, bs[..k], s))
  }

  ghost predicate KnownAll(code: Code, m: Cache, busy: set<nat>, fn: nat, bs: seq<nat>)
    requires code.HasAll(fn, bs)
  {
    forall k :: 0 <= k < |bs| ==> KnownIn(code, m, busy, fn, bs[k])
  }

  /** `m'` has every entry of `m`. */
  ghost predicate Extending(m: Cache, m': Cache) {
    forall f :: f in m ==> f in m' && m'[f] == m[f]
  }

  /** Two caches give the same summaries to these calls. */
  ghost predicate Agree(code: Code, m: Cache, m': Cache, busy: set<nat>, calls: seq<nat>) {
    forall i :: 0 <= i < |calls| && calls[i] in code.program && calls[i] !in busy ==>
      calls[i] in m && calls[i] in m' && m[calls[i]] == m'[calls[i]]
  }

  ghost predicate AgreeIn(code: Code, m: Cache, m': Cache, busy: set<nat>, fn: nat, b: nat)
    requires code.Has(fn, b)
  {
    Agree(code, m, m', busy, code.program[fn].blocks[b].calls)
  }

  lemma {:induction false} ReplayAgrees(code: Code, m: Cache, m': Cache, busy: set<nat>, calls: seq<nat>, s: State)
    requires Agree(code, m, m', busy, calls)
    ensures ReplayAll(code, m, busy, calls, s) == ReplayAll(code, m', busy, calls, s)
    decreases |calls|
  {
    if calls != [] {
      ReplayAgrees(code, m, m', busy, calls[..|calls| - 1], s);
    }
  }

  lemma ReplayNext(code: Code, m: Cache, m': Cache, busy: set<nat>, calls: seq<nat>, k: nat, s: State)
    requires k < |calls| && Extending(m, m') && Known(code, m, busy, calls[..k])
    ensures Known(code, m', busy, calls[..k])
    ensures (calls[k] in code.program && calls[k] !in busy ==> calls[k] in m') ==> Known(code, m', busy, calls[..k + 1])
    ensures ReplayAll(code, m', busy, calls[..k + 1], s)
            == ReplayOne(code, m', busy, calls[k], ReplayAll(code, m, busy, calls[..k], s))
  {
    assert calls[..k + 1][..k] == calls[..k];
    ReplayAgrees(code, m, m', busy, calls[..k], s);
  }

  lemma PassAgrees(code: Code, m: Cache, m': Cache, busy: set<nat>, fn: nat, b: nat, s: State)
    requires code.Has(fn, b) && AgreeIn(code, m, m', busy, fn, b)
    ensures PassBlock(code, m, busy, fn, b, s) == PassBlock(code, m', busy, fn, b, s)
  {
    ReplayAgrees(code, m, m', busy, code.program[fn].blocks[b].calls, code.transfer(fn, b, s));
  }

  lemma {:induction false} PassAllAgrees(code: Code, m: Cache, m': Cache, busy: set<nat>, fn: nat, bs: seq<nat>,
                                         s: State)
    requires code.HasAll(fn, bs) && forall k :: 0 <= k < |bs| ==> AgreeIn(code, m, m', busy, fn, bs[k])
    ensures PassAll(code, m, busy, fn, bs, s) == PassAll(code, m', busy, fn, bs, s)
    decreases |bs|
  {
    if bs != [] {
      var k := |bs| - 1;
      PassAllAgrees(code, m, m', busy, fn, bs[..k], s);
      PassAgrees(code, m, m', busy, fn, bs[k], PassAll(code, m, busy, fn, bs[..k], s));
    }
  }

  // ---------------------------------------------------------------- runs of one function

  datatype Config = Config(block: nat, state: State)

  /** State `t` is where round `i` of the visit of `c` branches. */
  ghost predicate Branches(code: Code, m: Cache, busy: set<nat>, fn: nat, c: Config, i: nat, t: State)
    requires code.Has(fn, c.block)
  {
    var body := code.program[fn];
    var r := body.rep[c.block];
    && KnownIn(code, m, busy, fn, r) && i < |body.Rounds(r)| && code.HasAll(fn, body.Rounds(r)[i])
    && KnownAll(code, m, busy, fn, body.Rounds(r)[i])
    && t == PassAll(code, m, busy, fn, body.Rounds(r)[i], PassBlock(code, m, busy, fn, r, c.state))
  }

  /** `d` is a call of `check` that the visit of `c` makes: the only successor, from the first round,
      or in some round a successor that the switch lets through. */
  ghost predicate IsChild(code: Code, m: Cache, busy: set<nat>, fn: nat, c: Config, d: Config)
    requires code.Has(fn, c.block)
  {
    var next := code.program[fn].blocks[code.program[fn].rep[c.block]].next;
    && d.block in next
    && if |next| == 1 then Branches(code, m, busy, fn, c, 0, d.state)
       else code.keep(fn, d.block, d.state) && exists i: nat :: Branches(code, m, busy, fn, c, i, d.state)
  }

  /** A leaf extracts `x`. */
  ghost predicate LeafGives(code: Code, m: Cache, busy: set<nat>, fn: nat, c: Config, x: nat)
    requires code.Has(fn, c.block)
  {
    && code.program[fn].blocks[code.program[fn].rep[c.block]].next == {}
    && exists t :: Branches(code, m, busy, fn, c, 0, t) && x in code.leaf(fn, t)
  }

  ghost predicate IsRun(code: Code, m: Cache, busy: set<nat>, fn: nat, run: seq<Config>) {
    && |run| > 0 && (forall i :: 0 <= i < |run| ==> code.Has(fn, run[i].block))
    && (forall i, j :: 0 <= i && j == i + 1 && j < |run| ==> IsChild(code, m, busy, fn, run[i], run[j]))
  }

  /** `x` is extracted at the leaf of a run from `c` that replays the summaries of `m`. */
  ghost predicate Extracted(code: Code, m: Cache, busy: set<nat>, fn: nat, c: Config, x: nat) {
    exists run :: IsRun(code, m, busy, fn, run) && run[0] == c && LeafGives(code, m, busy, fn, run[|run| - 1], x)
  }

  lemma ExtractedUp(code: Code, m: Cache, busy: set<nat>, fn: nat, c: Config, d: Config, x: nat)
    requires code.Has(fn, c.block) && IsChild(code, m, busy, fn, c, d) && Extracted(code, m, busy, fn, d, x)
    ensures Extracted(code, m, busy, fn, c, x)
  {
    var rest :| IsRun(code, m, busy, fn, rest) && rest[0] == d && LeafGives(code, m, busy, fn, rest[|rest| - 1], x);
    var run := [c] + rest;
    assert IsRun(code, m, busy, fn, run) by {
      forall i, j | 0 <= i && j == i + 1 && j < |run| ensures IsChild(code, m, busy, fn, run[i], run[j]) {
        if i > 0 {
          assert IsChild(code, m, busy, fn, rest[i - 1], rest[j - 1]);
        }
      }
    }
    assert run[|run| - 1] == rest[|rest| - 1];
  }

  lemma ExtractedDown(code: Code, m: Cache, busy: set<nat>, fn: nat, c: Config, x: nat)
    requires code.Has(fn, c.block) && Extracted(code, m, busy, fn, c, x)
    ensures || LeafGives(code, m, busy, fn, c, x)
            || exists d :: IsChild(code, m, busy, fn, c, d) && Extracted(code, m, busy, fn, d, x)
  {
    var run :| IsRun(code, m, busy, fn, run) && run[0] == c && LeafGives(code, m, busy, fn, run[|run| - 1], x);
    if |run| > 1 {
      var rest := run[1..];
      assert IsChild(code, m, busy, fn, run[0], run[1]);
      assert IsRun(code, m, busy, fn, rest) by {
        forall i, j | 0 <= i && j == i + 1 && j < |rest| ensures IsChild(code, m, busy, fn, rest[i], rest[j]) {
          assert IsChild(code, m, busy, fn, run[i + 1], run[j + 1]);
        }
      }
      assert rest[|rest| - 1] == run[|run| - 1];
      assert Extracted(code, m, busy, fn, run[1], x);
    }
  }

  // ---------------------------------------------------------------- the summaries made so far

  /** A finished analysis of `fn`, entered while `busy` was under analysis. */
  datatype Entry = Entry(fn: nat, busy: set<nat>, facts: Facts, visits: nat)

  type Log = seq<Entry>

  ghost predicate Made(log: Log, f: nat, facts: Facts) {
    exists i :: 0 <= i < |log| && log[i].fn == f && log[i].facts == facts
  }

  /** Every summary of the cache is one that was made. */
  ghost predicate DrawnFrom(log: Log, m: Cache) {
    forall f :: f in m ==> Made(log, f, m[f])
  }

  lemma DrawnLater(log: Log, log': Log, m: Cache)
    requires log <= log' && DrawnFrom(log, m)
    ensures DrawnFrom(log', m)
  {
    forall f | f in m ensures Made(log', f, m[f]) {
      var i :| 0 <= i < |log| && log[i].fn == f && log[i].facts == m[f];
      assert log'[i] == log[i];
    }
  }

  /** A run from `c` extracts `x` with one summary for each function, all of them made before and
      those of `base` among them. */
  ghost predicate FoundFrom(code: Code, log: Log, busy: set<nat>, fn: nat, c: Config, base: Cache, x: nat) {
    exists m :: Extending(base, m) && DrawnFrom(log, m) && Extracted(code, m, busy, fn, c, x)
  }

  ghost predicate AllFound(code: Code, log: Log, busy: set<nat>, fn: nat, c: Config, base: Cache, before: Facts,
                           after: Facts)
  {
    before <= after && forall x :: x in after && x !in before ==> FoundFrom(code, log, busy, fn, c, base, x)
  }

  lemma FoundLater(code: Code, log: Log, log': Log, busy: set<nat>, fn: nat, c: Config, base: Cache, base': Cache,
                   x: nat)
    requires log <= log' && Extending(base, base') && FoundFrom(code, log, busy, fn, c, base', x)
    ensures FoundFrom(code, log', busy, fn, c, base, x)
  {
    var m :| Extending(base', m) && DrawnFrom(log, m) && Extracted(code, m, busy, fn, c, x);
    DrawnLater(log, log', m);
  }

  /** Visiting `c` can be completed, with summaries made before, in such a way that everything the
      leaves extract is in `found`; `n` bounds the depth. */
  ghost predicate Covers(code: Code, log: Log, busy: set<nat>, fn: nat, c: Config, found: Facts, n: nat)
    decreases n, 0
  {
    && n > 0 && code.Has(fn, c.block)
    && exists m :: Settles(code, log, busy, fn, c, m)
                   && Spreads(code, log, busy, fn, c,
                              PassBlock(code, m, busy, fn, code.program[fn].rep[c.block], c.state), found, n - 1)
  }

  ghost predicate Settles(code: Code, log: Log, busy: set<nat>, fn: nat, c: Config, m: Cache)
    requires code.Has(fn, c.block)
  {
    DrawnFrom(log, m) && KnownIn(code, m, busy, fn, code.program[fn].rep[c.block])
  }

  ghost predicate Spreads(code: Code, log: Log, busy: set<nat>, fn: nat, c: Config, t: State, found: Facts, n: nat)
    requires code.Has(fn, c.block)
    decreases n, 3
  {
    var body := code.program[fn];
    var next := body.blocks[body.rep[c.block]].next;
    if next == {} then code.leaf(fn, t) <= found
    else if |next| == 1 then forall w :: w in next ==> Covers(code, log, busy, fn, Config(w, t), found, n)
    else forall i :: 0 <= i < |body.Rounds(body.rep[c.block])| ==> RoundDone(code, log, busy, fn, c, i, t, found, n)
  }

  ghost predicate RoundDone(code: Code, log: Log, busy: set<nat>, fn: nat, c: Config, i: nat, t: State, found: Facts,
                            n: nat)
    requires code.Has(fn, c.block) && i < |code.program[fn].Rounds(code.program[fn].rep[c.block])|
    decreases n, 2
  {
    var bs := code.program[fn].Rounds(code.program[fn].rep[c.block])[i];
    && code.HasAll(fn, bs)
    && exists m :: DrawnFrom(log, m) && KnownAll(code, m, busy, fn, bs)
                   && TakesAll(code, log, busy, fn, c, PassAll(code, m, busy, fn, bs, t), found, n)
  }

  ghost predicate TakesAll(code: Code, log: Log, busy: set<nat>, fn: nat, c: Config, u: State, found: Facts, n: nat)
    requires code.Has(fn, c.block)
    decreases n, 1
  {
    forall w :: w in code.program[fn].blocks[code.program[fn].rep[c.block]].next && code.keep(fn, w, u) ==>
      Covers(code, log, busy, fn, Config(w, u), found, n)
  }

  lemma {:induction false} CoversLater(code: Code, log: Log, log': Log, busy: set<nat>, fn: nat, c: Config,
                                       found: Facts,
                                       found': Facts, n: nat, n': nat)
    requires log <= log' && found <= found' && n <= n' && Covers(code, log, busy, fn, c, found, n)
    ensures Covers(code, log', busy, fn, c, found', n')
    decreases n, 0
  {
    var r := code.program[fn].rep[c.block];
    var m :| Settles(code, log, busy, fn, c, m)
             && Spreads(code, log, busy, fn, c, PassBlock(code, m, busy, fn, r, c.state), found, n - 1);
    DrawnLater(log, log', m);
    SpreadsLater(code, log, log', busy, fn, c, PassBlock(code, m, busy, fn, r, c.state), found, found', n - 1, n' - 1);
    assert Settles(code, log', busy, fn, c, m);
  }

  lemma {:induction false} SpreadsLater(code: Code, log: Log, log': Log, busy: set<nat>, fn: nat, c: Config, t: State,
                                        found: Facts, found': Facts, n: nat, n': nat)
    requires code.Has(fn, c.block) && log <= log' && found <= found' && n <= n'
    requires Spreads(code, log, busy, fn, c, t, found, n)
    ensures Spreads(code, log', busy, fn, c, t, found', n')
    decreases n, 3
  {
    var body := code.program[fn];
    var next := body.blocks[body.rep[c.block]].next;
    if |next| == 1 {
      forall w | w in next ensures Covers(code, log', busy, fn, Config(w, t), found', n') {
        CoversLater(code, log, log', busy, fn, Config(w, t), found, found', n, n');
      }
    } else if next != {} {
      forall i | 0 <= i < |body.Rounds(body.rep[c.block])|
        ensures RoundDone(code, log', busy, fn, c, i, t, found', n')
      {
        RoundLater(code, log, log', busy, fn, c, i, t, found, found', n, n');
      }
    }
  }

  lemma {:induction false} RoundLater(code: Code, log: Log, log': Log, busy: set<nat>, fn: nat, c: Config, i: nat,
                                      t: State,
                                      found: Facts, found': Facts, n: nat, n': nat)
    requires code.Has(fn, c.block) && i < |code.program[fn].Rounds(code.program[fn].rep[c.block])|
    requires log <= log' && found <= found' && n <= n' && RoundDone(code, log, busy, fn, c, i, t, found, n)
    ensures RoundDone(code, log', busy, fn, c, i, t, found', n')
    decreases n, 2
  {
    var bs := code.program[fn].Rounds(code.program[fn].rep[c.block])[i];
    var m :| DrawnFrom(log, m) && KnownAll(code, m, busy, fn, bs)
             && TakesAll(code, log, busy, fn, c, PassAll(code, m, busy, fn, bs, t), found, n);
    DrawnLater(log, log', m);
    TakesLater(code, log, log', busy, fn, c, PassAll(code, m, busy, fn, bs, t), found, found', n, n');
  }

  lemma {:induction false} TakesLater(code: Code, log: Log, log': Log, busy: set<nat>, fn: nat, c: Config, u: State,
                                      found: Facts, found': Facts, n: nat, n': nat)
    requires code.Has(fn, c.block) && log <= log' && found <= found' && n <= n'
    requires TakesAll(code, log, busy, fn, c, u, found, n)
    ensures TakesAll(code, log', busy, fn, c, u, found', n')
    decreases n, 1
  {
    forall w | w in code.program[fn].blocks[code.program[fn].rep[c.block]].next && code.keep(fn, w, u)
      ensures Covers(code, log', busy, fn, Config(w, u), found', n')
    {
      CoversLater(code, log, log', busy, fn, Config(w, u), found, found', n, n');
    }
  }

  const START := Config(0, 0)

  /** What a finished analysis is, in terms of the summaries made before it. */
  ghost predicate Justified(code: Code, log: Log, e: Entry) {
    && AllFound(code, log, e.busy, e.fn, START, map[], {}, e.facts)
    && (e.visits <= Explorer.VISIT_LIMIT ==>
          Covers(code, log, e.busy, e.fn, START, e.facts, Explorer.VISIT_LIMIT + 1))
  }

  ghost predicate WellKept(code: Code, log: Log) {
    forall i :: 0 <= i < |log| ==> Justified(code, log[..i], log[i])
  }

  lemma KeptPush(code: Code, log: Log, e: Entry)
    requires WellKept(code, log) && Justified(code, log, e)
    ensures WellKept(code, log + [e])
  {
    forall i | 0 <= i < |log| + 1 ensures Justified(code, (log + [e])[..i], (log + [e])[i]) {
      assert (log + [e])[..i] == log[..i];
      if i == |log| {
        assert log[..i] == log;
      }
    }
  }

  // ---------------------------------------------------------------- what a visit finds

  lemma BranchesStay(code: Code, m: Cache, m': Cache, busy: set<nat>, fn: nat, c: Config, i: nat, t: State)
    requires code.Has(fn, c.block) && Branches(code, m, busy, fn, c, i, t) && Extending(m, m')
    ensures Branches(code, m', busy, fn, c, i, t)
  {
    var r := code.program[fn].rep[c.block];
    var bs := code.program[fn].Rounds(r)[i];
    PassAgrees(code, m, m', busy, fn, r, c.state);
    PassAllAgrees(code, m, m', busy, fn, bs, PassBlock(code, m, busy, fn, r, c.state));
  }

  /** The state before a round, and the round itself with more summaries. */
  lemma RoundBranches(code: Code, m: Cache, m': Cache, busy: set<nat>, fn: nat, c: Config, i: nat, t: State, u: State)
    requires code.Has(fn, c.block) && Extending(m, m')
    requires var body := code.program[fn];
             var r := body.rep[c.block];
             && KnownIn(code, m, busy, fn, r) && t == PassBlock(code, m, busy, fn, r, c.state)
             && i < |body.Rounds(r)| && code.HasAll(fn, body.Rounds(r)[i])
             && KnownAll(code, m', busy, fn, body.Rounds(r)[i])
             && u == PassAll(code, m', busy, fn, body.Rounds(r)[i], t)
    ensures Branches(code, m', busy, fn, c, i, u)
  {
    PassAgrees(code, m, m', busy, fn, code.program[fn].rep[c.block], c.state);
  }

  lemma LeafFound(code: Code, log: Log, busy: set<nat>, fn: nat, c: Config, base: Cache, m: Cache, t: State,
                  before: Facts)
    requires code.Has(fn, c.block) && code.program[fn].blocks[code.program[fn].rep[c.block]].next == {}
    requires Branches(code, m, busy, fn, c, 0, t) && Extending(base, m) && DrawnFrom(log, m)
    ensures AllFound(code, log, busy, fn, c, base, before, before + code.leaf(fn, t))
  {
    forall x | x in code.leaf(fn, t) ensures FoundFrom(code, log, busy, fn, c, base, x) {
      var run := [c];
      assert IsRun(code, m, busy, fn, run) && LeafGives(code, m, busy, fn, run[|run| - 1], x);
      assert Extracted(code, m, busy, fn, c, x);
    }
  }

  /** What a child finds is found from its parent. */
  lemma ChildFound(code: Code, log: Log, busy: set<nat>, fn: nat, c: Config, base: Cache, i: nat, d: Config, m: Cache,
                   before: Facts, after: Facts)
    requires code.Has(fn, c.block) && Extending(base, m) && Branches(code, m, busy, fn, c, i, d.state)
    requires var next := code.program[fn].blocks[code.program[fn].rep[c.block]].next;
             d.block in next && if |next| == 1 then i == 0 else code.keep(fn, d.block, d.state)
    requires AllFound(code, log, busy, fn, d, m, before, after)
    ensures AllFound(code, log, busy, fn, c, base, before, after)
  {
    forall x | x in after && x !in before ensures FoundFrom(code, log, busy, fn, c, base, x) {
      assert FoundFrom(code, log, busy, fn, d, m, x);
      var m' :| Extending(m, m') && DrawnFrom(log, m') && Extracted(code, m', busy, fn, d, x);
      BranchesStay(code, m, m', busy, fn, c, i, d.state);
      assert IsChild(code, m', busy, fn, c, d);
      ExtractedUp(code, m', busy, fn, c, d, x);
    }
  }

  /** Finds add up over a grown log. */
  lemma AllFoundThen(code: Code, log: Log, log': Log, busy: set<nat>, fn: nat, c: Config, base: Cache, base': Cache,
                     a: Facts, b: Facts, d: Facts)
    requires log <= log' && Extending(base, base')
    requires AllFound(code, log, busy, fn, c, base, a, b) && AllFound(code, log', busy, fn, c, base', b, d)
    ensures AllFound(code, log', busy, fn, c, base, a, d)
  {
    forall x | x in d && x !in a ensures FoundFrom(code, log', busy, fn, c, base, x) {
      if x in b {
        FoundLater(code, log, log', busy, fn, c, base, base, x);
      } else {
        FoundLater(code, log', log', busy, fn, c, base, base', x);
      }
    }
  }

  lemma FoundWider(code: Code, log: Log, busy: set<nat>, fn: nat, c: Config, base: Cache, base': Cache, a: Facts,
                   b: Facts)
    requires Extending(base, base') && AllFound(code, log, busy, fn, c, base', a, b)
    ensures AllFound(code, log, busy, fn, c, base, a, b)
  {
    forall x | x in b && x !in a ensures FoundFrom(code, log, busy, fn, c, base, x) {
      FoundLater(code, log, log, busy, fn, c, base, base', x);
    }
  }

  lemma OnlyOne(s: set<nat>, w: nat)
    requires |s| == 1 && w in s
    ensures s == {w}
  {
    assert |s - {w}| == 0;
  }

  /** The first `k` rounds are done. */
  ghost predicate RoundsDone(code: Code, log: Log, busy: set<nat>, fn: nat, c: Config, k: nat, t: State, found: Facts,
                             n: nat)
    requires code.Has(fn, c.block) && k <= |code.program[fn].Rounds(code.program[fn].rep[c.block])|
  {
    forall i :: 0 <= i < k ==> RoundDone(code, log, busy, fn, c, i, t, found, n)
  }

  lemma RoundsNext(code: Code, log: Log, log': Log, busy: set<nat>, fn: nat, c: Config, k: nat, t: State, found: Facts,
                   found': Facts, b: nat, n: nat)
    requires code.Has(fn, c.block) && k < |code.program[fn].Rounds(code.program[fn].rep[c.block])|
    requires log <= log' && found <= found' && RoundsDone(code, log, busy, fn, c, k, t, found, n)
    requires b <= n && RoundDone(code, log', busy, fn, c, k, t, found', b)
    ensures RoundsDone(code, log', busy, fn, c, k + 1, t, found', n)
  {
    forall i | 0 <= i < k + 1 ensures RoundDone(code, log', busy, fn, c, i, t, found', n) {
      if i < k {
        RoundLater(code, log, log', busy, fn, c, i, t, found, found', n, n);
      } else {
        RoundLater(code, log', log', busy, fn, c, k, t, found', found', b, n);
      }
    }
  }

  /** All successors but those in `todo` are done. */
  ghost predicate TakesBut(code: Code, log: Log, busy: set<nat>, fn: nat, c: Config, u: State, found: Facts, n: nat,
                           todo: set<nat>)
    requires code.Has(fn, c.block)
  {
    forall w ::
      w in code.program[fn].blocks[code.program[fn].rep[c.block]].next && w !in todo && code.keep(fn, w, u) ==>
      Covers(code, log, busy, fn, Config(w, u), found, n)
  }

  lemma TakesNext(code: Code, log: Log, log': Log, busy: set<nat>, fn: nat, c: Config, u: State, found: Facts,
                  found': Facts, b: nat, n: nat, todo: set<nat>, w: nat)
    requires code.Has(fn, c.block) && log <= log' && found <= found' && b <= n
    requires TakesBut(code, log, busy, fn, c, u, found, n, todo + {w})
    requires Covers(code, log', busy, fn, Config(w, u), found', b)
    ensures TakesBut(code, log', busy, fn, c, u, found', n, todo)
  {
    forall x | x in code.program[fn].blocks[code.program[fn].rep[c.block]].next && x !in todo && code.keep(fn, x, u)
      ensures Covers(code, log', busy, fn, Config(x, u), found', n)
    {
      if x == w {
        CoversLater(code, log', log', busy, fn, Config(w, u), found', found', b, n);
      } else {
        CoversLater(code, log, log', busy, fn, Config(x, u), found, found', n, n);
      }
    }
  }

  lemma PassAllMore(code: Code, m: Cache, m': Cache, busy: set<nat>, fn: nat, bs: seq<nat>, k: nat, s: State)
    requires k < |bs| && code.HasAll(fn, bs) && code.HasAll(fn, bs[..k]) && Extending(m, m')
    requires KnownAll(code, m, busy, fn, bs[..k]) && code.Has(fn, bs[k]) && KnownIn(code, m', busy, fn, bs[k])
    ensures code.HasAll(fn, bs[..k + 1]) && KnownAll(code, m', busy, fn, bs[..k + 1])
    ensures PassAll(code, m', busy, fn, bs[..k + 1], s)
            == PassBlock(code, m', busy, fn, bs[k], PassAll(code, m, busy, fn, bs[..k], s))
  {
    var more := bs[..k + 1];
    assert more[..k] == bs[..k];
    forall i | 0 <= i < |more| ensures code.Has(fn, more[i]) && KnownIn(code, m', busy, fn, more[i]) {
      if i < k {
        assert more[i] == bs[..k][i];
        assert KnownIn(code, m, busy, fn, bs[..k][i]);
      }
    }
    PassAllAgrees(code, m, m', busy, fn, bs[..k], s);
  }

  // ---------------------------------------------------------------- exact summaries

  /** A block of `fn` calls `f`, which has a body. */
  ghost predicate Calls(code: Code, fn: nat, f: nat) {
    f in code.program && exists b: nat :: code.Has(fn, b) && f in code.program[fn].blocks[b].calls
  }

  /** Where a callee of `fn` that is not under analysis was summarised before, the cache has that summary. */
  ghost predicate Consistent(code: Code, log: Log, busy: set<nat>, fn: nat, m: Cache) {
    forall f, i ::
      0 <= i < |log| && log[i].fn == f && Calls(code, fn, f) && f !in busy && f in m ==> m[f] == log[i].facts
  }

  lemma ConsistentAgrees(code: Code, log: Log, busy: set<nat>, fn: nat, b: nat, m: Cache, m': Cache)
    requires Consistent(code, log, busy, fn, m) && DrawnFrom(log, m') && code.Has(fn, b)
    requires KnownIn(code, m, busy, fn, b) && KnownIn(code, m', busy, fn, b)
    ensures AgreeIn(code, m', m, busy, fn, b)
  {
    var calls := code.program[fn].blocks[b].calls;
    forall i | 0 <= i < |calls| && calls[i] in code.program && calls[i] !in busy ensures m'[calls[i]] == m[calls[i]] {
      assert Calls(code, fn, calls[i]);
      assert Made(log, calls[i], m'[calls[i]]);
    }
  }

  /** A covered visit has everything that runs from it extract with a consistent cache. */
  lemma {:induction false} CoveredRuns(code: Code, log: Log, busy: set<nat>, fn: nat, c: Config, found: Facts, n: nat,
                                       m: Cache, x: nat)
    requires Covers(code, log, busy, fn, c, found, n) && Consistent(code, log, busy, fn, m)
    requires Extracted(code, m, busy, fn, c, x)
    ensures x in found
    decreases n
  {
    ExtractedDown(code, m, busy, fn, c, x);
    if LeafGives(code, m, busy, fn, c, x) {
      LeafCovered(code, log, busy, fn, c, m, found, n, x);
    } else {
      var d :| IsChild(code, m, busy, fn, c, d) && Extracted(code, m, busy, fn, d, x);
      ChildCovered(code, log, busy, fn, c, d, m, found, n);
      CoveredRuns(code, log, busy, fn, d, found, n - 1, m, x);
    }
  }

  lemma LeafCovered(code: Code, log: Log, busy: set<nat>, fn: nat, c: Config, m: Cache, found: Facts, n: nat, x: nat)
    requires Covers(code, log, busy, fn, c, found, n) && Consistent(code, log, busy, fn, m)
    requires LeafGives(code, m, busy, fn, c, x)
    ensures x in found
  {
    var r := code.program[fn].rep[c.block];
    var m' :| Settles(code, log, busy, fn, c, m')
              && Spreads(code, log, busy, fn, c, PassBlock(code, m', busy, fn, r, c.state), found, n - 1);
    ConsistentAgrees(code, log, busy, fn, r, m, m');
    PassAgrees(code, m', m, busy, fn, r, c.state);
  }

  lemma ChildCovered(code: Code, log: Log, busy: set<nat>, fn: nat, c: Config, d: Config, m: Cache, found: Facts,
                     n: nat)
    requires Covers(code, log, busy, fn, c, found, n) && Consistent(code, log, busy, fn, m)
    requires IsChild(code, m, busy, fn, c, d)
    ensures Covers(code, log, busy, fn, d, found, n - 1)
  {
    var body := code.program[fn];
    var r := body.rep[c.block];
    var m' :| Settles(code, log, busy, fn, c, m')
              && Spreads(code, log, busy, fn, c, PassBlock(code, m', busy, fn, r, c.state), found, n - 1);
    var t := PassBlock(code, m', busy, fn, r, c.state);
    ConsistentAgrees(code, log, busy, fn, r, m, m');
    PassAgrees(code, m', m, busy, fn, r, c.state);
    if |body.blocks[r].next| == 1 {
      assert d == Config(d.block, t);
    } else {
      var i: nat :| Branches(code, m, busy, fn, c, i, d.state);
      assert RoundDone(code, log, busy, fn, c, i, t, found, n - 1);
      RoundCovered(code, log, busy, fn, c, d, i, t, m, found, n - 1);
    }
  }

  lemma RoundCovered(code: Code, log: Log, busy: set<nat>, fn: nat, c: Config, d: Config, i: nat, t: State, m: Cache,
                     found: Facts, n: nat)
    requires code.Has(fn, c.block) && Consistent(code, log, busy, fn, m)
    requires i < |code.program[fn].Rounds(code.program[fn].rep[c.block])|
    requires RoundDone(code, log, busy, fn, c, i, t, found, n)
    requires var body := code.program[fn];
             var bs := body.Rounds(body.rep[c.block])[i];
             && code.HasAll(fn, bs) && KnownAll(code, m, busy, fn, bs) && d.state == PassAll(code, m, busy, fn, bs, t)
             && d.block in body.blocks[body.rep[c.block]].next && code.keep(fn, d.block, d.state)
    ensures Covers(code, log, busy, fn, d, found, n)
  {
    var bs := code.program[fn].Rounds(code.program[fn].rep[c.block])[i];
    var m' :| DrawnFrom(log, m') && KnownAll(code, m', busy, fn, bs)
              && TakesAll(code, log, busy, fn, c, PassAll(code, m', busy, fn, bs, t), found, n);
    forall k | 0 <= k < |bs| ensures AgreeIn(code, m', m, busy, fn, bs[k]) {
      ConsistentAgrees(code, log, busy, fn, bs[k], m, m');
    }
    PassAllAgrees(code, m', m, busy, fn, bs, t);
    assert d == Config(d.block, d.state);
  }

  /** Each callee that is not under analysis has one summary. */
  ghost predicate OneEach(code: Code, log: Log, busy: set<nat>, fn: nat) {
    forall i, j ::
      0 <= i < |log| && 0 <= j < |log| && log[i].fn == log[j].fn && Calls(code, fn, log[i].fn) && log[i].fn !in busy
      ==> log[i].facts == log[j].facts
  }

  /** A summary within the visit limit is exactly what the runs of its function extract. */
  lemma SummaryExact(code: Code, log: Log, e: Entry)
    requires Justified(code, log, e) && e.visits <= Explorer.VISIT_LIMIT && OneEach(code, log, e.busy, e.fn)
    ensures forall x :: x in e.facts <==> FoundFrom(code, log, e.busy, e.fn, START, map[], x)
  {
    forall x | FoundFrom(code, log, e.busy, e.fn, START, map[], x) ensures x in e.facts {
      var m :| Extending(map[], m) && DrawnFrom(log, m) && Extracted(code, m, e.busy, e.fn, START, x);
      forall f, i | 0 <= i < |log| && log[i].fn == f && Calls(code, e.fn, f) && f !in e.busy && f in m
        ensures m[f] == log[i].facts
      {
        assert Made(log, f, m[f]);
      }
      CoveredRuns(code, log, e.busy, e.fn, START, e.facts, Explorer.VISIT_LIMIT + 1, m, x);
    }
  }

  // ---------------------------------------------------------------- programs without recursion

  /** Calls go down. */
  ghost predicate Ranked(code: Code, rank: nat -> nat) {
    forall fn, f :: Calls(code, fn, f) ==> rank(f) < rank(fn)
  }

  /** In a program without recursion no function under analysis can be called. */
  ghost predicate Above(code: Code, rank: nat -> nat, busy: set<nat>, fn: nat) {
    Ranked(code, rank) ==> forall f :: f in busy ==> rank(f) >= rank(fn)
  }

  ghost predicate AllAbove(code: Code, rank: nat -> nat, log: Log) {
    forall i :: 0 <= i < |log| ==> Above(code, rank, log[i].busy, log[i].fn)
  }

  ghost predicate IsCalled(code: Code, f: nat) {
    exists fn :: Calls(code, fn, f)
  }

  ghost predicate AllCalled(code: Code, log: Log) {
    forall i :: 0 <= i < |log| ==> IsCalled(code, log[i].fn)
  }

  ghost predicate LogValid(code: Code, rank: nat -> nat, log: Log) {
    WellKept(code, log) && AllAbove(code, rank, log) && AllCalled(code, log)
  }

  lemma LogPush(code: Code, rank: nat -> nat, log: Log, e: Entry, m: Cache)
    requires LogValid(code, rank, log) && Justified(code, log, e) && Above(code, rank, e.busy, e.fn)
    requires IsCalled(code, e.fn)
    requires DrawnFrom(log, m)
    ensures LogValid(code, rank, log + [e]) && DrawnFrom(log + [e], m[e.fn := e.facts])
  {
    KeptPush(code, log, e);
    DrawnLater(log, log + [e], m);
    assert (log + [e])[|log|] == e;
  }

  /** A callee is entered below everything under analysis. */
  lemma CalleeAbove(code: Code, rank: nat -> nat, busy: set<nat>, fn: nat, target: nat)
    requires Above(code, rank, busy, fn) && Calls(code, fn, target)
    ensures Above(code, rank, busy, target) && Above(code, rank, busy + {target}, target) && IsCalled(code, target)
  {
  }

  /** The cache holds summaries of called functions only. */
  lemma OnlyCalledCached(code: Code, log: Log, m: Cache, f: nat)
    requires AllCalled(code, log) && DrawnFrom(log, m) && f in m
    ensures IsCalled(code, f)
  {
    assert Made(log, f, m[f]);
  }

  ghost predicate AllWithin(log: Log) {
    forall i :: 0 <= i < |log| ==> log[i].visits <= Explorer.VISIT_LIMIT
  }

  /** Runs do not depend on what is under analysis when nothing of it is called. */
  lemma ExtractedAlone(code: Code, m: Cache, busy: set<nat>, busy': set<nat>, fn: nat, c: Config, x: nat)
    requires forall f :: Calls(code, fn, f) ==> f !in busy && f !in busy'
    requires Extracted(code, m, busy, fn, c, x)
    ensures Extracted(code, m, busy', fn, c, x)
  {
    var run :| IsRun(code, m, busy, fn, run) && run[0] == c && LeafGives(code, m, busy, fn, run[|run| - 1], x);
    forall c: Config, i: nat, t: State | code.Has(fn, c.block) && Branches(code, m, busy, fn, c, i, t)
      ensures Branches(code, m, busy', fn, c, i, t)
    {
      BranchesAlone(code, m, busy, busy', fn, c, i, t);
    }
    forall i, j | 0 <= i && j == i + 1 && j < |run| ensures IsChild(code, m, busy', fn, run[i], run[j]) {
      assert IsChild(code, m, busy, fn, run[i], run[j]);
    }
    assert IsRun(code, m, busy', fn, run);
  }

  lemma BranchesAlone(code: Code, m: Cache, busy: set<nat>, busy': set<nat>, fn: nat, c: Config, i: nat, t: State)
    requires forall f :: Calls(code, fn, f) ==> f !in busy && f !in busy'
    requires code.Has(fn, c.block) && Branches(code, m, busy, fn, c, i, t)
    ensures Branches(code, m, busy', fn, c, i, t)
  {
    var r := code.program[fn].rep[c.block];
    var bs := code.program[fn].Rounds(r)[i];
    PassAlone(code, m, busy, busy', fn, r, c.state);
    PassAllAlone(code, m, busy, busy', fn, bs, PassBlock(code, m, busy, fn, r, c.state));
    forall k | 0 <= k < |bs| ensures KnownIn(code, m, busy', fn, bs[k]) {
      PassAlone(code, m, busy, busy', fn, bs[k], 0);
    }
  }

  lemma PassAlone(code: Code, m: Cache, busy: set<nat>, busy': set<nat>, fn: nat, b: nat, s: State)
    requires (forall f :: Calls(code, fn, f) ==> f !in busy && f !in busy') && code.Has(fn, b)
    ensures PassBlock(code, m, busy, fn, b, s) == PassBlock(code, m, busy', fn, b, s)
    ensures KnownIn(code, m, busy, fn, b) ==> KnownIn(code, m, busy', fn, b)
  {
    var calls := code.program[fn].blocks[b].calls;
    forall i | 0 <= i < |calls| && calls[i] in code.program ensures Calls(code, fn, calls[i]) {
    }
    ReplayAlone(code, m, busy, busy', calls, code.transfer(fn, b, s));
  }

  lemma {:induction false} ReplayAlone(code: Code, m: Cache, busy: set<nat>, busy': set<nat>, calls: seq<nat>, s: State)
    requires forall i :: 0 <= i < |calls| && calls[i] in code.program ==> calls[i] !in busy && calls[i] !in busy'
    ensures ReplayAll(code, m, busy, calls, s) == ReplayAll(code, m, busy', calls, s)
    decreases |calls|
  {
    if calls != [] {
      ReplayAlone(code, m, busy, busy', calls[..|calls| - 1], s);
    }
  }

  lemma {:induction false} PassAllAlone(code: Code, m: Cache, busy: set<nat>, busy': set<nat>, fn: nat, bs: seq<nat>,
                                        s: State)
    requires (forall f :: Calls(code, fn, f) ==> f !in busy && f !in busy') && code.HasAll(fn, bs)
    ensures PassAll(code, m, busy, fn, bs, s) == PassAll(code, m, busy', fn, bs, s)
    decreases |bs|
  {
    if bs != [] {
      var k := |bs| - 1;
      PassAllAlone(code, m, busy, busy', fn, bs[..k], s);
      PassAlone(code, m, busy, busy', fn, bs[k], PassAll(code, m, busy, fn, bs[..k], s));
    }
  }

  /** Without recursion and within the visit limit, however often a function is analysed, and in
      whatever order, its summary is the same. */
  lemma {:induction false} SummariesAgree(code: Code, rank: nat -> nat, log: Log, i: nat, j: nat, x: nat)
    requires Ranked(code, rank) && WellKept(code, log) && AllAbove(code, rank, log) && AllWithin(log)
    requires i < |log| && j < |log| && log[i].fn == log[j].fn && x in log[i].facts
    ensures x in log[j].facts
    decreases rank(log[i].fn), 1
  {
    var e, e' := log[i], log[j];
    assert Justified(code, log[..i], e) && Justified(code, log[..j], e');
    assert Above(code, rank, e.busy, e.fn) && Above(code, rank, e'.busy, e'.fn);
    var m :| Extending(map[], m) && DrawnFrom(log[..i], m) && Extracted(code, m, e.busy, e.fn, START, x);
    ExtractedAlone(code, m, e.busy, e'.busy, e.fn, START, x);
    DrawnConsistent(code, rank, log, i, j, e'.busy, e.fn, m);
    CoveredRuns(code, log[..j], e'.busy, e'.fn, START, e'.facts, Explorer.VISIT_LIMIT + 1, m, x);
  }

  lemma {:induction false} SummariesMatch(code: Code, rank: nat -> nat, log: Log, i: nat, j: nat)
    requires Ranked(code, rank) && WellKept(code, log) && AllAbove(code, rank, log) && AllWithin(log)
    requires i < |log| && j < |log| && log[i].fn == log[j].fn
    ensures log[i].facts == log[j].facts
    decreases rank(log[i].fn), 2
  {
    forall y | y in log[i].facts ensures y in log[j].facts {
      SummariesAgree(code, rank, log, i, j, y);
    }
    forall y | y in log[j].facts ensures y in log[i].facts {
      SummariesAgree(code, rank, log, j, i, y);
    }
  }

  lemma {:induction false} DrawnConsistent(code: Code, rank: nat -> nat, log: Log, i: nat, j: nat, busy: set<nat>,
                                           fn: nat,
                                           m: Cache)
    requires Ranked(code, rank) && WellKept(code, log) && AllAbove(code, rank, log) && AllWithin(log)
    requires i <= |log| && j <= |log| && DrawnFrom(log[..i], m)
    ensures Consistent(code, log[..j], busy, fn, m)
    decreases rank(fn), 0
  {
    forall f, b | 0 <= b < |log[..j]| && log[..j][b].fn == f && Calls(code, fn, f) && f !in busy && f in m
      ensures m[f] == log[..j][b].facts
    {
      assert Made(log[..i], f, m[f]);
      var a :| 0 <= a < |log[..i]| && log[..i][a].fn == f && log[..i][a].facts == m[f];
      SummariesMatch(code, rank, log, a, b);
    }
  }

  /** So every summary there is exactly what the runs of its function extract. */
  lemma RankedExact(code: Code, rank: nat -> nat, log: Log, e: Entry)
    requires Ranked(code, rank) && WellKept(code, log) && AllAbove(code, rank, log) && AllWithin(log)
    requires Justified(code, log, e) && e.visits <= Explorer.VISIT_LIMIT
    ensures forall x :: x in e.facts <==> FoundFrom(code, log, e.busy, e.fn, START, map[], x)
  {
    forall i, j | 0 <= i < |log| && 0 <= j < |log| && log[i].fn == log[j].fn ensures log[i].facts == log[j].facts {
      SummariesMatch(code, rank, log, i, j);
    }
    SummaryExact(code, log, e);
  }

  // ---------------------------------------------------------------- the analysis

  /** The analysis of one function body. */
  class Graph {
    const fn: nat
    var state: State
    var visitTimes: nat
    var ret: Facts

    constructor (fn: nat)
      ensures this.fn == fn && visitTimes == 0 && ret == {} && state == START.state
    {
      this.fn, state, visitTimes, ret := fn, START.state, 0, {};
    }
  }

  /** From one cache to a later one: entries are never lost or rewritten, and none appears
      for a function that is being analysed. */
  ghost predicate Grows(a: Cache, b: Cache, busy: set<nat>) {
    Extending(a, b) && (forall f :: f in b && f in busy ==> f in a)
  }

  class Analysis {
    const code: Code
    ghost const rank: nat -> nat
    var fnMap: Cache
    var recursionSet: set<nat>
    ghost var log: Log

    /** `rank` is for programs without recursion. */
    constructor (code: Code, ghost rank: nat -> nat)
      requires code.Valid()
      ensures Valid() && this.code == code && this.rank == rank && fnMap == map[] && recursionSet == {} && log == []
    {
      this.code, this.rank := code, rank;
      fnMap, recursionSet, log := map[], {}, [];
    }

    ghost predicate Valid()
      reads this
    {
      code.Valid() && LogValid(code, rank, log) && DrawnFrom(log, fnMap) && fnMap.Keys !! recursionSet
    }

    /** The state of the analysis while `fn` is analysed. */
    ghost predicate Busy(fn: nat)
      reads this
    {
      Valid() && Above(code, rank, recursionSet, fn)
    }

    /** Functions that a nested analysis may still enter. */
    ghost function Open(): set<nat>
      reads this
    {
      code.program.Keys - recursionSet
    }

    ghost function Budget(g: Graph): nat
      reads g
    {
      if g.visitTimes <= Explorer.VISIT_LIMIT then Explorer.VISIT_LIMIT - g.visitTimes + 1 else 0
    }

    lemma OnlyCalled()
      requires Valid()
      ensures forall f :: f in fnMap ==> IsCalled(code, f)
    {
      forall f | f in fnMap ensures IsCalled(code, f) {
        OnlyCalledCached(code, log, fnMap, f);
      }
    }

    /** `alias_bbcall`: replays cached summaries, analyses new callees, and skips those whose
        analysis is already under way. */
    method AliasCalls(g: Graph, calls: seq<nat>)
      requires Busy(g.fn) && forall i :: 0 <= i < |calls| && calls[i] in code.program ==> Calls(code, g.fn, calls[i])
      modifies this, g
      ensures Valid() && recursionSet == old(recursionSet) && Grows(old(fnMap), fnMap, recursionSet) && old(log) <= log
      ensures g.visitTimes == old(g.visitTimes) && g.ret == old(g.ret)
      ensures Known(code, fnMap, recursionSet, calls)
      ensures g.state == ReplayAll(code, fnMap, recursionSet, calls, old(g.state))
      decreases Open(), Budget(g), 1
    {
      var k := 0;
      assert calls[..0] == [];
      while k < |calls|
        invariant 0 <= k <= |calls| && Valid() && old(log) <= log
        invariant recursionSet == old(recursionSet) && Grows(old(fnMap), fnMap, recursionSet)
        invariant g.visitTimes == old(g.visitTimes) && g.ret == old(g.ret)
        invariant Known(code, fnMap, recursionSet, calls[..k])
        invariant g.state == ReplayAll(code, fnMap, recursionSet, calls[..k], old(g.state))
      {
        ghost var before := fnMap;
        var target := calls[k];
        if target in code.program && target !in fnMap && target !in recursionSet {
          CalleeAbove(code, rank, recursionSet, g.fn, target);
          Summarise(target);
        }
        ReplayNext(code, before, fnMap, recursionSet, calls, k, old(g.state));
        if target in code.program && target in fnMap {
          g.state := code.replay(g.state, fnMap[target]);
        }
        k := k + 1;
      }
      assert calls[..k] == calls;
    }

    /** A callee without a summary: analysed under the guard of `recursion_set`, and cached. */
    method Summarise(target: nat)
      requires Valid() && IsCalled(code, target) && target !in fnMap && target !in recursionSet
      requires Above(code, rank, recursionSet + {target}, target)
      modifies this
      ensures Valid() && recursionSet == old(recursionSet) && Grows(old(fnMap), fnMap, recursionSet) && old(log) <= log
      ensures target in fnMap
      decreases Open(), 0, 0
    {
      recursionSet := recursionSet + {target};
      var callee := new Graph(target);
      ghost var base := fnMap;
      Check(callee, 0);
      FoundWider(code, log, recursionSet, target, START, map[], base, {}, callee.ret);
      ghost var e := Entry(target, recursionSet, callee.ret, callee.visitTimes);
      LogPush(code, rank, log, e, fnMap);
      log := log + [e];
      fnMap := fnMap[target := callee.ret];
      recursionSet := recursionSet - {target};
    }

    /** `check`: ends on every call graph; on return `recursion_set` is as on entry. What it adds to
        the results is what runs from here extract, with summaries made before; and all of it,
        unless the visit limit is passed. */
    method Check(g: Graph, bb: nat)
      requires Busy(g.fn) && code.Has(g.fn, bb)
      modifies this, g
      ensures Valid() && recursionSet == old(recursionSet) && Grows(old(fnMap), fnMap, recursionSet) && old(log) <= log
      ensures g.visitTimes > old(g.visitTimes)
      ensures AllFound(code, log, recursionSet, g.fn, Config(bb, old(g.state)), old(fnMap), old(g.ret), g.ret)
      ensures g.visitTimes <= Explorer.VISIT_LIMIT ==>
                Covers(code, log, recursionSet, g.fn, Config(bb, old(g.state)), g.ret, old(Budget(g)))
      decreases Open(), Budget(g), 4
    {
      g.visitTimes := g.visitTimes + 1;
      if g.visitTimes > Explorer.VISIT_LIMIT {
        return;
      }
      ghost var c, base, n := Config(bb, g.state), fnMap, Budget(g);
      var r := code.program[g.fn].rep[bb];
      g.state := code.transfer(g.fn, r, g.state);
      AliasCalls(g, code.program[g.fn].blocks[r].calls);
      ghost var m, made, ret, t := fnMap, log, g.ret, g.state;
      Explore(g, r, c);
      AllFoundThen(code, made, log, recursionSet, g.fn, c, base, m, ret, ret, g.ret);
      if g.visitTimes <= Explorer.VISIT_LIMIT {
        DrawnLater(made, log, m);
        assert Settles(code, log, recursionSet, g.fn, c, m);
        assert Spreads(code, log, recursionSet, g.fn, c, PassBlock(code, m, recursionSet, g.fn, r, c.state), g.ret, n);
      }
    }

    /** The order loop of a visit. */
    method Explore(g: Graph, r: nat, ghost c: Config)
      requires Busy(g.fn) && code.Has(g.fn, c.block) && r == code.program[g.fn].rep[c.block]
      requires KnownIn(code, fnMap, recursionSet, g.fn, r)
      requires g.state == PassBlock(code, fnMap, recursionSet, g.fn, r, c.state)
      modifies this, g
      ensures Valid() && recursionSet == old(recursionSet) && Grows(old(fnMap), fnMap, recursionSet) && old(log) <= log
      ensures g.visitTimes >= old(g.visitTimes)
      ensures AllFound(code, log, recursionSet, g.fn, c, old(fnMap), old(g.ret), g.ret)
      ensures g.visitTimes <= Explorer.VISIT_LIMIT ==>
                Spreads(code, log, recursionSet, g.fn, c, old(g.state), g.ret, old(Budget(g)))
      decreases Open(), Budget(g), 7
    {
      var backupState, backupFnMap, backupRecursionSet := g.state, fnMap, recursionSet;
      var body := code.program[g.fn];
      var orders := [[]] + body.blocks[r].orders;
      ghost var n := Budget(g);
      var k := 0;
      while k < |orders|
        invariant 0 <= k <= |orders| && Valid() && old(log) <= log && g.visitTimes >= old(g.visitTimes)
        invariant recursionSet == old(recursionSet) && Grows(backupFnMap, fnMap, recursionSet)
        invariant AllFound(code, log, recursionSet, g.fn, c, backupFnMap, old(g.ret), g.ret)
        invariant if k > 0 then |body.blocks[r].next| > 1 else g.ret == old(g.ret) && g.visitTimes == old(g.visitTimes)
        invariant g.visitTimes <= Explorer.VISIT_LIMIT ==>
                    RoundsDone(code, log, recursionSet, g.fn, c, k, backupState, g.ret, n)
      {
        g.state, fnMap, recursionSet := backupState, backupFnMap, backupRecursionSet;
        DrawnLater(old(log), log, fnMap);
        ghost var made, ret, b := log, g.ret, Budget(g);
        if |body.blocks[r].next| <= 1 {
          FinishRound(g, r, c);
          return;
        }
        TakeRound(g, r, orders[k], c, k);
        AllFoundThen(code, made, log, recursionSet, g.fn, c, backupFnMap, backupFnMap, old(g.ret), ret, g.ret);
        if g.visitTimes <= Explorer.VISIT_LIMIT {
          RoundsNext(code, made, log, recursionSet, g.fn, c, k, backupState, ret, g.ret, b, n);
        }
        k := k + 1;
      }
    }

    /** A round of a block with several successors. */
    method TakeRound(g: Graph, r: nat, order: seq<nat>, ghost c: Config, ghost i: nat)
      requires Busy(g.fn) && code.Has(g.fn, c.block) && r == code.program[g.fn].rep[c.block]
      requires i < |code.program[g.fn].Rounds(r)| && order == code.program[g.fn].Rounds(r)[i]
      requires KnownIn(code, fnMap, recursionSet, g.fn, r) && |code.program[g.fn].blocks[r].next| > 1
      requires g.state == PassBlock(code, fnMap, recursionSet, g.fn, r, c.state)
      modifies this, g
      ensures Valid() && recursionSet == old(recursionSet) && Grows(old(fnMap), fnMap, recursionSet) && old(log) <= log
      ensures g.visitTimes >= old(g.visitTimes)
      ensures AllFound(code, log, recursionSet, g.fn, c, old(fnMap), old(g.ret), g.ret)
      ensures g.visitTimes <= Explorer.VISIT_LIMIT ==>
                RoundDone(code, log, recursionSet, g.fn, c, i, old(g.state), g.ret, old(Budget(g)))
      decreases Open(), Budget(g), 6
    {
      RunRound(g, r, order, c, i);
      ghost var m, made := fnMap, log;
      Split(g, r, c, i);
      FoundWider(code, log, recursionSet, g.fn, c, old(fnMap), m, old(g.ret), g.ret);
      DrawnLater(made, log, m);
    }

    /** The first round of a block with at most one successor. */
    method FinishRound(g: Graph, r: nat, ghost c: Config)
      requires Busy(g.fn) && code.Has(g.fn, c.block) && r == code.program[g.fn].rep[c.block]
      requires KnownIn(code, fnMap, recursionSet, g.fn, r) && |code.program[g.fn].blocks[r].next| <= 1
      requires g.state == PassBlock(code, fnMap, recursionSet, g.fn, r, c.state)
      modifies this, g
      ensures Valid() && recursionSet == old(recursionSet) && Grows(old(fnMap), fnMap, recursionSet) && old(log) <= log
      ensures g.visitTimes >= old(g.visitTimes)
      ensures AllFound(code, log, recursionSet, g.fn, c, old(fnMap), old(g.ret), g.ret)
      ensures g.visitTimes <= Explorer.VISIT_LIMIT ==>
                Spreads(code, log, recursionSet, g.fn, c, old(g.state), g.ret, old(Budget(g)))
      decreases Open(), Budget(g), 6
    {
      RunRound(g, r, [], c, 0);
      ghost var m := fnMap;
      Finish(g, r, c);
      FoundWider(code, log, recursionSet, g.fn, c, old(fnMap), m, old(g.ret), g.ret);
    }

    /** A visit without a choice: a leaf extracts its results, and an only successor is visited. */
    method Finish(g: Graph, r: nat, ghost c: Config)
      requires Busy(g.fn) && code.Has(g.fn, c.block) && r == code.program[g.fn].rep[c.block]
      requires |code.program[g.fn].blocks[r].next| <= 1 && Branches(code, fnMap, recursionSet, g.fn, c, 0, g.state)
      modifies this, g
      ensures Valid() && recursionSet == old(recursionSet) && Grows(old(fnMap), fnMap, recursionSet) && old(log) <= log
      ensures g.visitTimes >= old(g.visitTimes)
      ensures AllFound(code, log, recursionSet, g.fn, c, old(fnMap), old(g.ret), g.ret)
      ensures g.visitTimes <= Explorer.VISIT_LIMIT ==>
                Spreads(code, log, recursionSet, g.fn, c, old(g.state), g.ret, old(Budget(g)))
      decreases Open(), Budget(g), 5
    {
      var next := code.program[g.fn].blocks[r].next;
      ghost var m, u := fnMap, g.state;
      if |next| == 0 {
        LeafFound(code, log, recursionSet, g.fn, c, m, m, u, g.ret);
        g.ret := g.ret + code.leaf(g.fn, g.state);
      } else {
        var w :| w in next;
        Check(g, w);
        OnlyOne(next, w);
        ChildFound(code, log, recursionSet, g.fn, c, m, 0, Config(w, u), m, old(g.ret), g.ret);
      }
    }

    /** One round up to where it branches. */
    method RunRound(g: Graph, r: nat, order: seq<nat>, ghost c: Config, ghost i: nat)
      requires Busy(g.fn) && code.Has(g.fn, c.block) && r == code.program[g.fn].rep[c.block]
      requires i < |code.program[g.fn].Rounds(r)| && order == code.program[g.fn].Rounds(r)[i]
      requires KnownIn(code, fnMap, recursionSet, g.fn, r)
      requires g.state == PassBlock(code, fnMap, recursionSet, g.fn, r, c.state)
      modifies this, g
      ensures Valid() && recursionSet == old(recursionSet) && Grows(old(fnMap), fnMap, recursionSet) && old(log) <= log
      ensures g.visitTimes == old(g.visitTimes) && g.ret == old(g.ret)
      ensures code.HasAll(g.fn, order) && KnownAll(code, fnMap, recursionSet, g.fn, order)
      ensures g.state == PassAll(code, fnMap, recursionSet, g.fn, order, old(g.state))
      ensures Branches(code, fnMap, recursionSet, g.fn, c, i, g.state)
      decreases Open(), Budget(g), 3
    {
      ghost var m, t := fnMap, g.state;
      assert code.HasAll(g.fn, order);
      RunOrder(g, order);
      RoundBranches(code, m, fnMap, recursionSet, g.fn, c, i, t, g.state);
    }

    /** The blocks of one sub-block order. */
    method RunOrder(g: Graph, order: seq<nat>)
      requires Busy(g.fn) && code.HasAll(g.fn, order)
      modifies this, g
      ensures Valid() && recursionSet == old(recursionSet) && Grows(old(fnMap), fnMap, recursionSet) && old(log) <= log
      ensures g.visitTimes == old(g.visitTimes) && g.ret == old(g.ret)
      ensures KnownAll(code, fnMap, recursionSet, g.fn, order)
      ensures g.state == PassAll(code, fnMap, recursionSet, g.fn, order, old(g.state))
      decreases Open(), Budget(g), 2
    {
      var k := 0;
      assert order[..0] == [];
      while k < |order|
        invariant 0 <= k <= |order| && Valid() && old(log) <= log
        invariant recursionSet == old(recursionSet) && Grows(old(fnMap), fnMap, recursionSet)
        invariant g.visitTimes == old(g.visitTimes) && g.ret == old(g.ret)
        invariant code.HasAll(g.fn, order[..k]) && KnownAll(code, fnMap, recursionSet, g.fn, order[..k])
        invariant g.state == PassAll(code, fnMap, recursionSet, g.fn, order[..k], old(g.state))
      {
        ghost var before := fnMap;
        assert code.Has(g.fn, order[k]);
        g.state := code.transfer(g.fn, order[k], g.state);
        AliasCalls(g, code.program[g.fn].blocks[order[k]].calls);
        PassAllMore(code, before, fnMap, recursionSet, g.fn, order, k, old(g.state));
        k := k + 1;
      }
      assert order[..k] == order;
    }

    /** The branches of a block with several successors, each from the same state. */
    method Split(g: Graph, r: nat, ghost c: Config, ghost i: nat)
      requires Busy(g.fn) && code.Has(g.fn, c.block) && r == code.program[g.fn].rep[c.block]
      requires |code.program[g.fn].blocks[r].next| > 1
      requires Branches(code, fnMap, recursionSet, g.fn, c, i, g.state)
      modifies this, g
      ensures Valid() && recursionSet == old(recursionSet) && Grows(old(fnMap), fnMap, recursionSet) && old(log) <= log
      ensures g.visitTimes >= old(g.visitTimes)
      ensures AllFound(code, log, recursionSet, g.fn, c, old(fnMap), old(g.ret), g.ret)
      ensures g.visitTimes <= Explorer.VISIT_LIMIT ==>
                TakesAll(code, log, recursionSet, g.fn, c, old(g.state), g.ret, old(Budget(g)))
      decreases Open(), Budget(g), 5
    {
      var todo := code.program[g.fn].blocks[r].next;
      var backup := g.state;
      ghost var n := Budget(g);
      while todo != {}
        invariant todo <= code.program[g.fn].blocks[r].next && Valid() && old(log) <= log
        invariant g.visitTimes >= old(g.visitTimes) && g.state == backup
        invariant recursionSet == old(recursionSet) && Grows(old(fnMap), fnMap, recursionSet)
        invariant AllFound(code, log, recursionSet, g.fn, c, old(fnMap), old(g.ret), g.ret)
        invariant g.visitTimes <= Explorer.VISIT_LIMIT ==>
                    TakesBut(code, log, recursionSet, g.fn, c, backup, g.ret, n, todo)
        decreases todo
      {
        var w :| w in todo;
        todo := todo - {w};
        if g.visitTimes <= Explorer.VISIT_LIMIT && code.keep(g.fn, w, g.state) {
          ghost var m, made, ret, b := fnMap, log, g.ret, Budget(g);
          BranchesStay(code, old(fnMap), m, recursionSet, g.fn, c, i, backup);
          Check(g, w);
          g.state := backup;
          ChildFound(code, log, recursionSet, g.fn, c, old(fnMap), i, Config(w, backup), m, ret, g.ret);
          AllFoundThen(code, made, log, recursionSet, g.fn, c, old(fnMap), old(fnMap), old(g.ret), ret, g.ret);
          if g.visitTimes <= Explorer.VISIT_LIMIT {
            TakesNext(code, made, log, recursionSet, g.fn, c, backup, ret, g.ret, b, n, todo, w);
          }
        }
      }
    }

    /** `query_mop` of one function, starting with nothing under analysis. Its result does not go into
        the cache, which holds the summaries of called functions only. */
    method Query(fn: nat) returns (ret: Facts, visits: nat)
      requires Valid() && recursionSet == {}
      modifies this
      ensures Valid() && recursionSet == {} && Grows(old(fnMap), fnMap, {}) && old(log) <= log
      ensures fn in code.program ==> Justified(code, log, Entry(fn, {}, ret, visits))
      ensures fn !in code.program ==> ret == {}
      ensures forall f :: f in fnMap ==> IsCalled(code, f)
      ensures fn in code.program && Ranked(code, rank) && AllWithin(log) && visits <= Explorer.VISIT_LIMIT ==>
                forall x :: x in ret <==> FoundFrom(code, log, {}, fn, START, map[], x)
    {
      if fn !in code.program {
        OnlyCalled();
        return {}, 0;
      }
      var g := new Graph(fn);
      ghost var base := fnMap;
      Check(g, 0);
      ret, visits := g.ret, g.visitTimes;
      OnlyCalled();
      FoundWider(code, log, {}, fn, START, map[], base, {}, ret);
      if Ranked(code, rank) && AllWithin(log) && visits <= Explorer.VISIT_LIMIT {
        RankedExact(code, rank, log, Entry(fn, {}, ret, visits));
      }
    }
  }
}
