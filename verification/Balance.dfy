/** The ownership balance over the constraints of one path, and which solutions each kind of
    step excludes. */
module Balance {
  import opened Wrappers
  import opened BitVectors
  import opened Constraints

  // ---------------------------------------------------------------- state

  datatype IntraVar = Declared | Init(id: nat) | Unsupported

  /** The vectors of `icx_slice`, the names made so far and the constraints; then three
      records for the balance: bits created by calls, vectors before and after each drop,
      and vectors given up or overwritten without a constraint. */
  datatype Flow = Flow(
    vars: seq<IntraVar>, lens: seq<nat>, layouts: seq<seq<Owner>>, tys: seq<nat>,
    widths: seq<nat>, constraints: seq<Formula>,
    created: nat, drops: seq<(Term, Term)>, lost: seq<Term>)

  ghost function Held(m: Model, v: IntraVar): (n: nat) {
    if v.Init? then Ones(Eval(m, Var(v.id))) else 0
  }

  /** The set bits of all locals. */
  ghost function Total(m: Model, vars: seq<IntraVar>): (n: nat)
    decreases |vars|
  {
    if vars == [] then 0 else Held(m, vars[0]) + Total(m, vars[1..])
  }

  ghost function Cleared(m: Model, drops: seq<(Term, Term)>): (n: int)
    decreases |drops|
  {
    if drops == [] then 0
    else Cleared(m, drops[..|drops| - 1])
         + Ones(Eval(m, drops[|drops| - 1].0)) - Ones(Eval(m, drops[|drops| - 1].1))
  }

  ghost function Lost(m: Model, lost: seq<Term>): (n: nat)
    decreases |lost|
  {
    if lost == [] then 0 else Lost(m, lost[..|lost| - 1]) + Ones(Eval(m, lost[|lost| - 1]))
  }

  ghost predicate Shaped(s: Flow) {
    && |s.vars| == |s.lens| == |s.layouts| == |s.tys|
    && (forall i :: 0 <= i < |s.vars| && s.vars[i].Init? ==>
          (s.vars[i].id < |s.widths| && s.widths[s.vars[i].id] == s.lens[i]))
  }

  /** Locals other than `a` and `b` are as before. */
  ghost predicate Elsewhere(s: Flow, t: Flow, a: nat, b: nat) {
    && |t.vars| == |s.vars| && |t.lens| == |s.lens| && |t.layouts| == |s.layouts| && |t.tys| == |s.tys|
    && (forall k :: 0 <= k < |s.vars| && k != a && k != b ==> t.vars[k] == s.vars[k])
    && (forall k :: 0 <= k < |s.lens| && k != a && k != b ==> t.lens[k] == s.lens[k])
    && (forall k :: 0 <= k < |s.layouts| && k != a && k != b ==> t.layouts[k] == s.layouts[k])
    && (forall k :: 0 <= k < |s.tys| && k != a && k != b ==> t.tys[k] == s.tys[k])
  }

  /** In every solution, what calls created is what was dropped, given up or is still held. */
  ghost predicate Balanced(s: Flow) {
    forall m :: Solves(m, s.widths, s.constraints) ==>
      s.created == Cleared(m, s.drops) + Lost(m, s.lost) + Total(m, s.vars)
  }

  lemma {:induction false} TotalUpdate(m: Model, vars: seq<IntraVar>, i: nat, v: IntraVar)
    requires i < |vars|
    ensures Total(m, vars[i := v]) == Total(m, vars) - Held(m, vars[i]) + Held(m, v)
    decreases i
  {
    var ws := vars[i := v];
    if i == 0 {
      assert ws[1..] == vars[1..];
    } else {
      assert ws[1..] == vars[1..][i - 1 := v];
      TotalUpdate(m, vars[1..], i - 1, v);
    }
  }

  lemma ClearedPush(m: Model, drops: seq<(Term, Term)>, d: (Term, Term))
    ensures Cleared(m, drops + [d]) == Cleared(m, drops) + Ones(Eval(m, d.0)) - Ones(Eval(m, d.1))
  {
    assert (drops + [d])[..|drops|] == drops;
  }

  lemma LostPush(m: Model, lost: seq<Term>, t: Term)
    ensures Lost(m, lost + [t]) == Lost(m, lost) + Ones(Eval(m, t))
  {
    assert (lost + [t])[..|lost|] == lost;
  }

  lemma {:induction false} ClearedAppend(m: Model, drops: seq<(Term, Term)>, more: seq<(Term, Term)>)
    requires |more| <= 1
    ensures Cleared(m, drops + more) == Cleared(m, drops) + Cleared(m, more)
  {
    if more == [] {
      assert drops + more == drops;
    } else {
      assert more == [more[0]];
      ClearedPush(m, drops, more[0]);
      assert more[..0] == [];
    }
  }

  lemma SolvesFewer(m: Model, widths: seq<nat>, constraints: seq<Formula>, widths': seq<nat>,
                    constraints': seq<Formula>)
    requires widths <= widths' && constraints <= constraints' && Solves(m, widths', constraints')
    ensures Solves(m, widths, constraints)
  {
  }

  /** A solution of more constraints over more names solves the fewer. */
  lemma SolvesLess(m: Model, s: Flow, t: Flow)
    requires s.widths <= t.widths && s.constraints <= t.constraints && Solves(m, t.widths, t.constraints)
    ensures Solves(m, s.widths, s.constraints)
  {
  }

  /** Moving bits between two locals keeps the balance when the target held nothing and the
      two new vectors together hold what the source held. */
  lemma TransferKeeps(s: Flow, t: Flow, l: nat, r: nat, l': nat, r': nat)
    requires Shaped(s) && Balanced(s) && l < |s.vars| && r < |s.vars| && l != r
    requires s.widths <= t.widths && s.constraints <= t.constraints
    requires t.vars == s.vars[l := Init(l')][r := Init(r')] && t.created == s.created && t.drops == s.drops
    requires forall m :: Solves(m, t.widths, t.constraints) ==>
               Lost(m, t.lost) + Ones(Eval(m, Var(l'))) + Ones(Eval(m, Var(r')))
               == Lost(m, s.lost) + Held(m, s.vars[l]) + Held(m, s.vars[r])
    ensures Balanced(t)
  {
    forall m | Solves(m, t.widths, t.constraints)
      ensures t.created == Cleared(m, t.drops) + Lost(m, t.lost) + Total(m, t.vars)
    {
      SolvesLess(m, s, t);
      TotalUpdate(m, s.vars, l, Init(l'));
      TotalUpdate(m, s.vars[l := Init(l')], r, Init(r'));
    }
  }

  /** Replacing one local's vector keeps the balance when the records account for the change. */
  lemma ReplaceKeeps(s: Flow, t: Flow, u: nat, new': nat)
    requires Shaped(s) && Balanced(s) && u < |s.vars|
    requires s.widths <= t.widths && s.constraints <= t.constraints && t.vars == s.vars[u := Init(new')]
    requires forall m :: Solves(m, t.widths, t.constraints) ==>
               t.created - s.created + Held(m, s.vars[u]) + Cleared(m, s.drops) + Lost(m, s.lost)
               == Ones(Eval(m, Var(new'))) + Cleared(m, t.drops) + Lost(m, t.lost)
    ensures Balanced(t)
  {
    forall m | Solves(m, t.widths, t.constraints)
      ensures t.created == Cleared(m, t.drops) + Lost(m, t.lost) + Total(m, t.vars)
    {
      SolvesLess(m, s, t);
      TotalUpdate(m, s.vars, u, Init(new'));
    }
  }

  /** The last constraints hold in every solution. */
  lemma LastHolds(m: Model, widths: seq<nat>, constraints: seq<Formula>, f: Formula)
    requires Solves(m, widths, constraints) && |constraints| > 0 && f == constraints[|constraints| - 1]
    ensures Holds(m, f)
  {
  }

  lemma SuffixHolds(m: Model, widths: seq<nat>, constraints: seq<Formula>, fs: seq<Formula>)
    requires Solves(m, widths, constraints + fs)
    ensures AllHold(m, fs)
  {
    assert forall i :: 0 <= i < |fs| ==> fs[i] == (constraints + fs)[|constraints| + i];
  }

  lemma ZerosHoldNothing(n: nat)
    ensures Ones(Zeros(n)) == 0 && |Zeros(n)| == n
  {
    OnesZero(Zeros(n));
  }

  // ---------------------------------------------------------------- which solutions remain

  /** A solution that names nothing beyond the declared vectors. */
  ghost predicate Exact(m: Model, s: Flow) {
    Solves(m, s.widths, s.constraints) && |m| == |s.widths|
  }

  /** Some choice of the later vectors turns `m` into a solution of the later state. */
  ghost predicate Continues(m: Model, t: Flow) {
    exists m' :: m <= m' && Exact(m', t)
  }

  ghost function OwnOf(m: Model, v: IntraVar): (b: Bits) {
    if v.Init? then Eval(m, Var(v.id)) else []
  }

  /** Some later solution gives two locals these vectors. */
  ghost predicate ContinuesWith(m: Model, t: Flow, l: nat, bl: Bits, r: nat, br: Bits)
    requires l < |t.vars| && r < |t.vars|
  {
    exists m' :: m <= m' && Exact(m', t) && OwnOf(m', t.vars[l]) == bl && OwnOf(m', t.vars[r]) == br
  }

  /** The step from `s` to `t` excludes no solution. */
  ghost predicate Free(s: Flow, t: Flow) {
    forall m :: Exact(m, s) ==> Continues(m, t)
  }

  /** The step from `s` to `t` excludes exactly the solutions in which local `l` owns something. */
  ghost predicate NeedsEmpty(s: Flow, t: Flow, l: nat)
    requires l < |s.vars|
  {
    forall m :: Exact(m, s) ==> (Continues(m, t) <==> Held(m, s.vars[l]) == 0)
  }

  /** The step excludes exactly the solutions in which bit `fl` of an initialised local is set,
      the return place and the arguments aside. */
  ghost predicate NeedsBit(s: Flow, t: Flow, l: nat, fl: nat, argCount: nat)
    requires l < |s.vars|
  {
    forall m :: Exact(m, s) ==> (Continues(m, t) <==> !(l > argCount && BitSet(m, s.vars[l], fl)))
  }

  ghost predicate BitSet(m: Model, v: IntraVar, i: nat) {
    v.Init? && v.id < |m| && i < |m[v.id]| && m[v.id][i]
  }

  /** The constraint on one bit, and nothing else. */
  lemma BitOnly(s: Flow, t: Flow, l: nat, fl: nat, argCount: nat)
    requires Shaped(s) && l < |s.vars| && s.vars[l].Init? && fl < s.lens[l] && t.widths == s.widths
    requires t.constraints == s.constraints
                              + (if l > argCount then [Eq(ExtractT(Var(s.vars[l].id), fl, fl), Lit([false]))] else [])
    ensures NeedsBit(s, t, l, fl, argCount)
  {
    forall m | Exact(m, s) ensures Continues(m, t) <==> !(l > argCount && BitSet(m, s.vars[l], fl)) {
      var bit := ExtractT(Var(s.vars[l].id), fl, fl);
      assert Eval(m, bit) == [m[s.vars[l].id][fl]];
      if !(l > argCount && BitSet(m, s.vars[l], fl)) {
        assert l > argCount ==> Holds(m, Eq(bit, Lit([false])));
        assert m <= m && Exact(m, t);
      }
      if Continues(m, t) {
        var m' :| m <= m' && Exact(m', t);
        assert m' == m;
        if l > argCount {
          LastHolds(m, t.widths, t.constraints, Eq(bit, Lit([false])));
        }
      }
    }
  }

  ghost predicate Grown(s: Flow, t: Flow) {
    s.widths <= t.widths && s.constraints <= t.constraints && ScopedAll(s.constraints, |s.widths|)
  }

  ghost predicate AllHold(m: Model, fs: seq<Formula>) {
    forall i :: 0 <= i < |fs| ==> Holds(m, fs[i])
  }

  lemma AppendSolves(m: Model, s: Flow, t: Flow, values: seq<Bits>, fs: seq<Formula>)
    requires Exact(m, s) && ScopedAll(s.constraints, |s.widths|) && t.constraints == s.constraints + fs
    requires |t.widths| == |s.widths| + |values| && s.widths <= t.widths
    requires forall i :: 0 <= i < |values| ==> |values[i]| == t.widths[|s.widths| + i]
    requires AllHold(m + values, fs)
    ensures Exact(m + values, t) && Continues(m, t)
  {
    var m' := m + values;
    forall i | 0 <= i < |t.constraints| ensures Holds(m', t.constraints[i]) {
      if i < |s.constraints| {
        HoldsStable(m, m', s.constraints[i]);
      } else {
        assert t.constraints[i] == fs[i - |s.constraints|];
      }
    }
    assert m <= m' && Exact(m', t);
  }

  /** Two fresh vectors at a time. */
  lemma AppendTwo(m: Model, s: Flow, t: Flow, l': Bits, r': Bits, fs: seq<Formula>)
    requires Exact(m, s) && ScopedAll(s.constraints, |s.widths|) && t.constraints == s.constraints + fs
    requires t.widths == s.widths + [|l'|, |r'|]
    ensures AllHold(m + [l', r'], fs) ==> Exact(m + [l', r'], t) && Continues(m, t)
  {
    if AllHold(m + [l', r'], fs) {
      AppendSolves(m, s, t, [l', r'], fs);
    }
  }

  /** Cutting off the later names gives back a solution of the earlier state. */
  lemma Restrict(m': Model, s: Flow, t: Flow)
    requires Grown(s, t) && Exact(m', t)
    ensures Exact(m'[..|s.widths|], s)
  {
    var m := m'[..|s.widths|];
    forall i | 0 <= i < |s.constraints| ensures Holds(m, s.constraints[i]) {
      assert t.constraints[i] == s.constraints[i];
      HoldsStable(m, m', s.constraints[i]);
    }
  }

  lemma HeldStable(m: Model, m': Model, v: IntraVar)
    requires m <= m' && (v.Init? ==> v.id < |m|)
    ensures Held(m, v) == Held(m', v)
  {
  }

  /** The constraint that an initialised `l` owns nothing, and nothing else. */
  lemma EmptyOnly(s: Flow, t: Flow, l: nat)
    requires Shaped(s) && l < |s.vars| && t.widths == s.widths
    requires t.constraints == s.constraints
                              + (if s.vars[l].Init? then [Eq(Var(s.vars[l].id), Lit(Zeros(s.lens[l])))] else [])
    ensures NeedsEmpty(s, t, l)
  {
    forall m | Exact(m, s) ensures Continues(m, t) <==> Held(m, s.vars[l]) == 0 {
      if Held(m, s.vars[l]) == 0 {
        if s.vars[l].Init? {
          OnesZero(m[s.vars[l].id]);
          assert Holds(m, Eq(Var(s.vars[l].id), Lit(Zeros(s.lens[l]))));
        }
        assert m <= m && Exact(m, t);
      }
      if Continues(m, t) {
        var m' :| m <= m' && Exact(m', t);
        assert m' == m;
        if s.vars[l].Init? {
          LastHolds(m, t.widths, t.constraints, t.constraints[|s.constraints|]);
          ZerosHoldNothing(s.lens[l]);
        }
      }
    }
  }

  /** A free step does not change which solutions go on. */
  lemma ThenFree(s: Flow, mid: Flow, t: Flow)
    requires Grown(s, mid) && Grown(mid, t) && Free(mid, t)
    ensures forall m :: Exact(m, s) ==> (Continues(m, mid) <==> Continues(m, t))
  {
    forall m | Exact(m, s) ensures Continues(m, mid) <==> Continues(m, t) {
      if Continues(m, mid) {
        var m1 :| m <= m1 && Exact(m1, mid);
        var m2 :| m1 <= m2 && Exact(m2, t);
        assert m <= m2;
      }
      if Continues(m, t) {
        var m2 :| m <= m2 && Exact(m2, t);
        Restrict(m2, mid, t);
        assert m <= m2[..|mid.widths|];
      }
    }
  }

  lemma FreeSame(s: Flow, t: Flow, t': Flow)
    requires Free(s, t) && t'.widths == t.widths && t'.constraints == t.constraints
    ensures Free(s, t')
  {
    forall m | Exact(m, s) ensures Continues(m, t') {
      var m' :| m <= m' && Exact(m', t);
      assert m <= m' && Exact(m', t');
    }
  }

  lemma StayFree(s: Flow, t: Flow)
    requires t.widths == s.widths && t.constraints == s.constraints
    ensures Free(s, t)
  {
    forall m | Exact(m, s) ensures Continues(m, t) {
      assert m <= m && Exact(m, t);
    }
  }

  lemma ReplaceStep(s: Flow, t: Flow, u: nat, width: nat, e: Term, made: nat, dropped: seq<(Term, Term)>)
    requires Shaped(s) && Balanced(s) && ScopedAll(s.constraints, |s.widths|)
    requires u < |s.vars| && |dropped| <= 1 && Scoped(e, |s.widths|)
    requires t == s.(vars := s.vars[u := Init(|s.widths|)], lens := s.lens[u := width], widths := s.widths + [width],
                     constraints := s.constraints + [Eq(Var(|s.widths|), e)],
                     created := s.created + made, drops := s.drops + dropped)
    requires forall m :: Solves(m, s.widths, s.constraints) ==> |Eval(m, e)| == width
    requires forall m :: Solves(m, t.widths, t.constraints) ==>
               made + Held(m, s.vars[u]) == Ones(Eval(m, Var(|s.widths|))) + Cleared(m, dropped)
    ensures Shaped(t) && Balanced(t) && ScopedAll(t.constraints, |t.widths|) && Free(s, t)
  {
    forall m | Solves(m, t.widths, t.constraints)
      ensures Cleared(m, t.drops) == Cleared(m, s.drops) + Cleared(m, dropped)
    {
      ClearedAppend(m, s.drops, dropped);
    }
    ReplaceKeeps(s, t, u, |s.widths|);
    DefinitionFree(s, t, e);
  }

  /** Defining a fresh vector by a term excludes nothing. */
  lemma DefinitionFree(s: Flow, t: Flow, u: Term)
    requires Scoped(u, |s.widths|) && ScopedAll(s.constraints, |s.widths|)
    requires |t.widths| == |s.widths| + 1 && s.widths <= t.widths
    requires t.constraints == s.constraints + [Eq(Var(|s.widths|), u)]
    requires forall m :: Solves(m, s.widths, s.constraints) ==> |Eval(m, u)| == t.widths[|s.widths|]
    ensures Free(s, t) && ScopedAll(t.constraints, |t.widths|)
  {
    var f := Eq(Var(|s.widths|), u);
    ScopedMore(u, |s.widths|, |t.widths|);
    ScopedEq(Var(|s.widths|), u, |t.widths|);
    ScopedAllMore(s.constraints, |s.widths|, [f], |t.widths|);
    forall m | Exact(m, s) ensures Continues(m, t) {
      EvalStable(m, m + [Eval(m, u)], u);
      AppendSolves(m, s, t, [Eval(m, u)], [f]);
    }
  }

  // ---------------------------------------------------------------- assignments and calls

  lemma PassedScoped(old': nat, to: nat, from: nat, width: nat, n: nat)
    requires old' < n && to < n && from < n
    ensures ScopedFormula(Passed(old', to, from, width), n)
    ensures ScopedFormula(Eq(Var(to), Var(old')), n) && ScopedFormula(Eq(Var(from), Lit(Zeros(width))), n)
  {
    ScopedEq(Var(to), Var(old'), n);
    ScopedEq(Var(from), Lit(Zeros(width)), n);
    ScopedPair(Eq(Var(to), Var(old')), Eq(Var(from), Lit(Zeros(width))), n);
  }

  lemma NeedsBitThen(s0: Flow, s: Flow, mid: Flow, t: Flow, l: nat, fl: nat, argCount: nat)
    requires l < |s.vars| && s == s0.(lens := s.lens) && NeedsBit(s, mid, l, fl, argCount)
    requires Grown(s, mid) && Grown(mid, t) && Free(mid, t)
    ensures NeedsBit(s0, t, l, fl, argCount)
  {
    ThenFree(s, mid, t);
    forall m | Exact(m, s0) ensures Continues(m, t) <==> !(l > argCount && BitSet(m, s0.vars[l], fl)) {
      assert Exact(m, s);
    }
  }

  /** The same, for the two ways of a copied field. */
  lemma EitherWayThen(s0: Flow, s: Flow, mid: Flow, t: Flow, l: nat, width: nat, fl: nat, r: nat, fr: nat,
                      argCount: nat)
    requires Shaped(s0) && l < |s.vars| == |t.vars| && r < |s.vars| && s == s0.(lens := s.lens)
    requires mid.vars == s.vars && NeedsBit(s, mid, l, fl, argCount)
    requires BitEitherWay(mid, t, l, width, fl, r, fr)
    ensures FieldEitherWay(s0, t, l, width, fl, r, fr, argCount)
  {
    forall m | Exact(m, s0) && !(l > argCount && BitSet(m, s0.vars[l], fl))
      ensures FieldContinues(m, t, l, Before(m, s0.vars[l], width), fl, r, OwnOf(m, s0.vars[r]), fr)
    {
      assert Exact(m, s);
      var m1 :| m <= m1 && Exact(m1, mid);
      FieldContinuesBack(m, m1, t, l, Before(m1, mid.vars[l], width), fl, r, OwnOf(m1, mid.vars[r]), fr);
    }
  }

  lemma FieldContinuesBack(m: Model, m1: Model, t: Flow, l: nat, b: Bits, fl: nat, r: nat, c: Bits, fr: nat)
    requires l < |t.vars| && r < |t.vars| && m <= m1 && FieldContinues(m1, t, l, b, fl, r, c, fr)
    ensures FieldContinues(m, t, l, b, fl, r, c, fr)
  {
    ContinuesBack(m, m1, t, l, b[fl := c[fr]], r, c[fr := false]);
    ContinuesBack(m, m1, t, l, b[fl := false], r, c);
  }

  lemma ContinuesBack(m: Model, m1: Model, t: Flow, l: nat, bl: Bits, r: nat, br: Bits)
    requires l < |t.vars| && r < |t.vars| && m <= m1 && ContinuesWith(m1, t, l, bl, r, br)
    ensures ContinuesWith(m, t, l, bl, r, br)
  {
    var m2 :| m1 <= m2 && Exact(m2, t) && OwnOf(m2, t.vars[l]) == bl && OwnOf(m2, t.vars[r]) == br;
    assert m <= m2;
  }

  /** The two fresh vectors of a whole-value assignment can always be chosen. */
  lemma PassedFree(s: Flow, t: Flow, old': nat, width: nat, copy: bool)
    requires ScopedAll(s.constraints, |s.widths|) && old' < |s.widths| && s.widths[old'] == width
    requires t.widths == s.widths + [width, width]
    requires t.constraints == s.constraints + PassedFormulas(old', |s.widths|, |s.widths| + 1, width, copy)
    ensures Free(s, t) && ScopedAll(t.constraints, |t.widths|)
  {
    var l', r' := |s.widths|, |s.widths| + 1;
    var fs := PassedFormulas(old', l', r', width, copy);
    PassedScoped(old', l', r', width, |t.widths|);
    PassedScoped(old', r', l', width, |t.widths|);
    ScopedPair(Passed(old', r', l', width), Passed(old', l', r', width), |t.widths|);
    ScopedAllMore(s.constraints, |s.widths|, fs, |t.widths|);
    forall m | Exact(m, s) ensures Continues(m, t) {
      PassedSolves(m, s, t, old', width, copy, false);
    }
  }

  /** The source's vector passes to the target or, in a copy, stays. */
  lemma PassedSolves(m: Model, s: Flow, t: Flow, old': nat, width: nat, copy: bool, stays: bool)
    requires ScopedAll(s.constraints, |s.widths|) && old' < |s.widths| && s.widths[old'] == width
    requires t.widths == s.widths + [width, width]
    requires t.constraints == s.constraints + PassedFormulas(old', |s.widths|, |s.widths| + 1, width, copy)
    requires Exact(m, s) && (stays ==> copy)
    ensures Exact(m + (if stays then [Zeros(width), m[old']] else [m[old'], Zeros(width)]), t) && Continues(m, t)
  {
    var l', r' := |s.widths|, |s.widths| + 1;
    var values := if stays then [Zeros(width), m[old']] else [m[old'], Zeros(width)];
    var to, from := if stays then r' else l', if stays then l' else r';
    assert Holds(m + values, Eq(Var(to), Var(old'))) && Holds(m + values, Eq(Var(from), Lit(Zeros(width))));
    assert Holds(m + values, Passed(old', to, from, width));
    AppendSolves(m, s, t, values, PassedFormulas(old', l', r', width, copy));
  }

  /** The copy of a whole value may pass it on or leave it, as long as the target is empty. */
  ghost predicate CopiesEitherWay(s: Flow, t: Flow, l: nat, r: nat)
    requires l < |s.vars| == |t.vars| && r < |s.vars|
  {
    forall m :: Exact(m, s) && Held(m, s.vars[l]) == 0 ==>
      && ContinuesWith(m, t, l, OwnOf(m, s.vars[r]), r, Zeros(|OwnOf(m, s.vars[r])|))
      && ContinuesWith(m, t, l, Zeros(|OwnOf(m, s.vars[r])|), r, OwnOf(m, s.vars[r]))
  }

  lemma PassedEitherWay(s0: Flow, s: Flow, t: Flow, l: nat, r: nat, width: nat)
    requires ScopedAll(s.constraints, |s.widths|) && l < |s.vars| && r < |s.vars| && l != r && s.vars[r].Init?
    requires s0.vars == s.vars && s0.widths == s.widths && NeedsEmpty(s0, s, l)
    requires s.vars[r].id < |s.widths| && s.widths[s.vars[r].id] == width
    requires t.vars == s.vars[l := Init(|s.widths|)][r := Init(|s.widths| + 1)] && t.widths == s.widths + [width, width]
    requires t.constraints == s.constraints + PassedFormulas(s.vars[r].id, |s.widths|, |s.widths| + 1, width, true)
    ensures CopiesEitherWay(s0, t, l, r)
  {
    var old' := s.vars[r].id;
    forall m | Exact(m, s0) && Held(m, s0.vars[l]) == 0
      ensures ContinuesWith(m, t, l, m[old'], r, Zeros(width)) && ContinuesWith(m, t, l, Zeros(width), r, m[old'])
    {
      var m1 :| m <= m1 && Exact(m1, s);
      assert m1 == m;
      PassedSolves(m, s, t, old', width, true, false);
      PassedSolves(m, s, t, old', width, true, true);
      assert m <= m + [m[old'], Zeros(width)] && m <= m + [Zeros(width), m[old']];
    }
  }

  /** The two vectors fit together and into a 64-bit number. */
  predicate Joinable(bits: Bits, pointers: Option<Bits>) {
    |bits| <= 63 && (pointers.Some? ==> |pointers.value| == |bits|)
  }

  /** What the type visitor knows of a first assignment: no supported type, nothing to track,
      or an instance. */
  datatype Priority = Unidentified | Ignored | Instance

  /** `to` receives the vector named `old'` and `from` is left empty. */
  function Passed(old': nat, to: nat, from: nat, width: nat): (f: Formula) {
    Both(Eq(Var(to), Var(old')), Eq(Var(from), Lit(Zeros(width))))
  }

  /** What `handle_copy` and `handle_move` assert about the fresh vectors. */
  function PassedFormulas(old': nat, l': nat, r': nat, width: nat, copy: bool): (fs: seq<Formula>) {
    if copy then [Either(Passed(old', r', l', width), Passed(old', l', r', width))]
    else [Eq(Var(r'), Lit(Zeros(width))), Eq(Var(l'), Var(old'))]
  }

  lemma PassedOwns(m: Model, old': nat, to: nat, from: nat, width: nat)
    requires Holds(m, Passed(old', to, from, width))
    ensures Eval(m, Var(to)) == Eval(m, Var(old')) && Ones(Eval(m, Var(from))) == 0
  {
    ZerosHoldNothing(width);
    assert Holds(m, Eq(Var(to), Var(old'))) && Holds(m, Eq(Var(from), Lit(Zeros(width))));
  }

  lemma EitherHolds(m: Model, f: Formula, g: Formula)
    requires Holds(m, Either(f, g))
    ensures Holds(m, f) || Holds(m, g)
  {
  }

  /** The target's vector before a field assignment. */
  ghost function Before(m: Model, l: IntraVar, width: nat): (b: Bits) {
    if l.Init? then Eval(m, Var(l.id)) else Zeros(width)
  }

  /** The term for the target means its vector, and only its bit `fl` has been given up. */
  ghost predicate Ready(m: Model, l: IntraVar, width: nat, fl: nat, lOri: Term, lost: seq<Term>, lost': seq<Term>) {
    var b := Before(m, l, width);
    && fl < |b| == width && Eval(m, lOri) == b
    && Lost(m, lost') == Lost(m, lost) + (if b[fl] then 1 else 0)
  }

  ghost predicate ClearsBit(mask: Bits, width: nat, index: nat) {
    && |mask| == width && index < width
    && (forall b: Bits :: |b| == width ==> And(b, mask) == b[index := false])
  }

  /** One bit passes from `r` to `l`; a copy may instead leave it and clear the target's bit. */
  ghost predicate FieldPassed(l: Bits, r: Bits, l': Bits, r': Bits, fl: nat, fr: nat, copy: bool) {
    && fl < |l| && fr < |r|
    && ((r' == r[fr := false] && l' == l[fl := r[fr]]) || (copy && l' == l[fl := false] && r' == r))
  }

  /** The constraints of a field assignment: the bit passes, or in a copy possibly stays. */
  function FieldFormulas(lOri: Term, old': nat, l': nat, r': nat, taken: Term, clearR: Bits, clearL: Bits, copy: bool)
    : (fs: seq<Formula>)
  {
    var rNonOwning, lOwning := Eq(Var(r'), AndT(Var(old'), Lit(clearR))), Eq(Var(l'), taken);
    if copy then
      [Either(Both(rNonOwning, lOwning), Both(Eq(Var(l'), AndT(lOri, Lit(clearL))), Eq(Var(r'), Var(old'))))]
    else
      [rNonOwning, lOwning]
  }

  /** The field assignment from `mid` to `t`, where `s` is the state before the target was
      prepared: the bit passes, the balance stays, and no solution is excluded. */
  lemma FieldStep(s: Flow, mid: Flow, t: Flow, l: nat, lOri: Term, fl: nat, r: nat, fr: nat, taken: Term,
                  clearR: Bits, clearL: Bits, copy: bool)
    requires Shaped(s) && Balanced(s) && Shaped(mid) && ScopedAll(mid.constraints, |mid.widths|)
    requires s.widths <= mid.widths && s.constraints <= mid.constraints
    requires s.vars == mid.vars && s.created == mid.created && s.drops == mid.drops
    requires l < |mid.vars| && r < |mid.vars| && l != r && mid.vars[r].Init? && fl < mid.lens[l] && fr < mid.lens[r]
    requires ClearsBit(clearR, mid.lens[r], fr) && (copy ==> ClearsBit(clearL, mid.lens[l], fl))
    requires Scoped(lOri, |mid.widths|) && Scoped(taken, |mid.widths|)
    requires forall m :: Solves(m, mid.widths, mid.constraints) ==>
               Ready(m, mid.vars[l], mid.lens[l], fl, lOri, s.lost, mid.lost)
    requires forall m :: Spliced(m, lOri, mid.lens[l], fl, ExtractT(Var(mid.vars[r].id), fr, fr), taken)
    requires var n := |mid.widths|;
             t == mid.(vars := mid.vars[l := Init(n)][r := Init(n + 1)],
                       widths := mid.widths + [mid.lens[l], mid.lens[r]],
                       constraints := mid.constraints
                                      + FieldFormulas(lOri, mid.vars[r].id, n, n + 1, taken, clearR, clearL, copy))
    ensures Shaped(t) && Balanced(t) && Free(mid, t)
    ensures copy ==> BitEitherWay(mid, t, l, mid.lens[l], fl, r, fr)
    ensures forall m :: Solves(m, t.widths, t.constraints) ==>
              FieldPassed(Before(m, mid.vars[l], mid.lens[l]), Eval(m, Var(mid.vars[r].id)),
                          Eval(m, Var(t.vars[l].id)), Eval(m, Var(t.vars[r].id)), fl, fr, copy)
  {
    var old', l', r', width := mid.vars[r].id, |mid.widths|, |mid.widths| + 1, mid.lens[l];
    forall m | Solves(m, t.widths, t.constraints)
      ensures Ready(m, s.vars[l], width, fl, lOri, s.lost, t.lost)
      ensures FieldPassed(Before(m, s.vars[l], width), Eval(m, Var(old')),
                          Eval(m, Var(l')), Eval(m, Var(r')), fl, fr, copy)
    {
      SolvesLess(m, mid, t);
      SuffixHolds(m, t.widths, mid.constraints, FieldFormulas(lOri, old', l', r', taken, clearR, clearL, copy));
      assert Ready(m, mid.vars[l], width, fl, lOri, s.lost, mid.lost);
      FieldModel(m, lOri, old', l', r', width, fl, fr, taken, clearR, clearL, copy);
    }
    FieldTransfer(s, t, l, fl, lOri, r, fr, l', r', width, copy);
    FieldFree(mid, t, lOri, old', width, fl, fr, taken, clearR, clearL, copy);
    if copy {
      forall m | Exact(m, mid)
        ensures FieldContinues(m, t, l, Before(m, mid.vars[l], width), fl, r, OwnOf(m, mid.vars[r]), fr)
      {
        assert Ready(m, mid.vars[l], width, fl, lOri, s.lost, mid.lost);
        assert Before(m, mid.vars[l], width) == Eval(m, lOri);
        FieldCopies(m, mid, t, l, lOri, fl, r, fr, taken, clearR, clearL);
      }
    }
  }

  /** The two fresh vectors of a field assignment can always be chosen. */
  lemma FieldFree(s: Flow, t: Flow, lOri: Term, old': nat, width: nat, fl: nat, fr: nat, taken: Term,
                  clearR: Bits, clearL: Bits, copy: bool)
    requires ScopedAll(s.constraints, |s.widths|) && old' < |s.widths| && t.widths == s.widths + [width, s.widths[old']]
    requires t.constraints == s.constraints
                              + FieldFormulas(lOri, old', |s.widths|, |s.widths| + 1, taken, clearR, clearL, copy)
    requires Scoped(lOri, |s.widths|) && Scoped(taken, |s.widths|)
    requires fl < width && ClearsBit(clearR, s.widths[old'], fr)
    requires forall m :: Solves(m, s.widths, s.constraints) ==> |Eval(m, lOri)| == width
    requires forall m :: Spliced(m, lOri, width, fl, ExtractT(Var(old'), fr, fr), taken)
    ensures Free(s, t)
  {
    forall m | Exact(m, s) ensures Continues(m, t) {
      FieldGoes(m, lOri, old', width, fl, fr, taken, clearR);
      FieldGoesOn(m, s, t, lOri, old', taken, clearR, clearL, copy);
    }
  }

  /** The bit passes on. */
  lemma FieldGoesOn(m: Model, s: Flow, t: Flow, lOri: Term, old': nat, taken: Term, clearR: Bits, clearL: Bits,
                    copy: bool)
    requires ScopedAll(s.constraints, |s.widths|) && Exact(m, s) && Scoped(taken, |s.widths|) && old' < |s.widths|
    requires t.widths == s.widths + [|Eval(m, taken)|, |Eval(m, AndT(Var(old'), Lit(clearR)))|]
    requires t.constraints == s.constraints
                              + FieldFormulas(lOri, old', |s.widths|, |s.widths| + 1, taken, clearR, clearL, copy)
    ensures Exact(m + [Eval(m, taken), Eval(m, AndT(Var(old'), Lit(clearR)))], t) && Continues(m, t)
  {
    var fs := FieldFormulas(lOri, old', |s.widths|, |s.widths| + 1, taken, clearR, clearL, copy);
    FieldValues(m, |s.widths|, lOri, old', taken, clearR, clearL, copy, fs);
    AppendTwo(m, s, t, Eval(m, taken), Eval(m, AndT(Var(old'), Lit(clearR))), fs);
  }

  /** The bit stays. */
  lemma FieldStaysPut(m: Model, s: Flow, t: Flow, lOri: Term, old': nat, taken: Term, clearR: Bits, clearL: Bits)
    requires ScopedAll(s.constraints, |s.widths|) && Exact(m, s) && Scoped(lOri, |s.widths|) && old' < |s.widths|
    requires t.widths == s.widths + [|Eval(m, AndT(lOri, Lit(clearL)))|, |m[old']|]
    requires t.constraints == s.constraints
                              + FieldFormulas(lOri, old', |s.widths|, |s.widths| + 1, taken, clearR, clearL, true)
    ensures Exact(m + [Eval(m, AndT(lOri, Lit(clearL))), m[old']], t)
  {
    var fs := FieldFormulas(lOri, old', |s.widths|, |s.widths| + 1, taken, clearR, clearL, true);
    FieldKeptValues(m, |s.widths|, lOri, old', taken, clearR, clearL, fs);
    AppendTwo(m, s, t, Eval(m, AndT(lOri, Lit(clearL))), m[old'], fs);
  }

  lemma FieldGoes(m: Model, lOri: Term, old': nat, width: nat, fl: nat, fr: nat, taken: Term, clearR: Bits)
    requires old' < |m| && fl < width && ClearsBit(clearR, |m[old']|, fr)
    requires |Eval(m, lOri)| == width && Spliced(m, lOri, width, fl, ExtractT(Var(old'), fr, fr), taken)
    ensures Eval(m, taken) == Eval(m, lOri)[fl := m[old'][fr]]
    ensures Eval(m, AndT(Var(old'), Lit(clearR))) == m[old'][fr := false]
  {
    assert Eval(m, ExtractT(Var(old'), fr, fr)) == [m[old'][fr]];
    assert Eval(m, Lit(clearR)) == clearR && Eval(m, Var(old')) == m[old'];
  }

  lemma FieldStays(m: Model, lOri: Term, fl: nat, clearL: Bits)
    requires ClearsBit(clearL, |Eval(m, lOri)|, fl)
    ensures Eval(m, AndT(lOri, Lit(clearL))) == Eval(m, lOri)[fl := false]
  {
    assert Eval(m, Lit(clearL)) == clearL;
  }

  lemma FieldValues(m: Model, n: nat, lOri: Term, old': nat, taken: Term, clearR: Bits, clearL: Bits, copy: bool,
                    fs: seq<Formula>)
    requires n == |m| && Scoped(taken, n) && old' < n
    requires fs == FieldFormulas(lOri, old', n, n + 1, taken, clearR, clearL, copy)
    ensures AllHold(m + [Eval(m, taken), Eval(m, AndT(Var(old'), Lit(clearR)))], fs)
  {
    var cleared := AndT(Var(old'), Lit(clearR));
    var m' := m + [Eval(m, taken), Eval(m, cleared)];
    EvalStable(m, m', taken);
    EvalStable(m, m', cleared);
    var goes := Both(Eq(Var(n + 1), cleared), Eq(Var(n), taken));
    assert Holds(m', goes.f) && Holds(m', goes.g);
    assert Holds(m', goes);
  }

  lemma FieldKeptValues(m: Model, n: nat, lOri: Term, old': nat, taken: Term, clearR: Bits, clearL: Bits,
                        fs: seq<Formula>)
    requires n == |m| && Scoped(lOri, n) && old' < n
    requires fs == FieldFormulas(lOri, old', n, n + 1, taken, clearR, clearL, true)
    ensures AllHold(m + [Eval(m, AndT(lOri, Lit(clearL))), m[old']], fs)
  {
    var cleared := AndT(lOri, Lit(clearL));
    var m' := m + [Eval(m, cleared), m[old']];
    EvalStable(m, m', cleared);
    var stays := Both(Eq(Var(n), cleared), Eq(Var(n + 1), Var(old')));
    assert Holds(m', stays.f) && Holds(m', stays.g);
    assert Holds(m', stays);
  }

  /** From every solution the copied bit may pass on or stay. */
  ghost predicate BitEitherWay(s: Flow, t: Flow, l: nat, width: nat, fl: nat, r: nat, fr: nat)
    requires l < |s.vars| == |t.vars| && r < |s.vars|
  {
    forall m :: Exact(m, s) ==>
      FieldContinues(m, t, l, Before(m, s.vars[l], width), fl, r, OwnOf(m, s.vars[r]), fr)
  }

  /** The same from those in which the overwritten bit is unset where it has to be. */
  ghost predicate FieldEitherWay(s: Flow, t: Flow, l: nat, width: nat, fl: nat, r: nat, fr: nat, argCount: nat)
    requires l < |s.vars| == |t.vars| && r < |s.vars|
  {
    forall m :: Exact(m, s) && !(l > argCount && BitSet(m, s.vars[l], fl)) ==>
      FieldContinues(m, t, l, Before(m, s.vars[l], width), fl, r, OwnOf(m, s.vars[r]), fr)
  }

  ghost predicate FieldContinues(m: Model, t: Flow, l: nat, b: Bits, fl: nat, r: nat, c: Bits, fr: nat)
    requires l < |t.vars| && r < |t.vars|
  {
    && fl < |b| && fr < |c|
    && ContinuesWith(m, t, l, b[fl := c[fr]], r, c[fr := false]) && ContinuesWith(m, t, l, b[fl := false], r, c)
  }

  lemma FieldCopies(m: Model, s: Flow, t: Flow, l: nat, lOri: Term, fl: nat, r: nat, fr: nat, taken: Term,
                    clearR: Bits, clearL: Bits)
    requires Shaped(s) && ScopedAll(s.constraints, |s.widths|) && l < |s.vars| && r < |s.vars| && l != r
    requires s.vars[r].Init?
    requires t.vars == s.vars[l := Init(|s.widths|)][r := Init(|s.widths| + 1)]
    requires t.widths == s.widths + [s.lens[l], s.lens[r]]
    requires t.constraints == s.constraints
               + FieldFormulas(lOri, s.vars[r].id, |s.widths|, |s.widths| + 1, taken, clearR, clearL, true)
    requires Scoped(lOri, |s.widths|) && Scoped(taken, |s.widths|) && Exact(m, s)
    requires ClearsBit(clearR, s.lens[r], fr) && ClearsBit(clearL, s.lens[l], fl) && |Eval(m, lOri)| == s.lens[l]
    requires Spliced(m, lOri, s.lens[l], fl, ExtractT(Var(s.vars[r].id), fr, fr), taken)
    ensures FieldContinues(m, t, l, Eval(m, lOri), fl, r, OwnOf(m, s.vars[r]), fr)
  {
    var old' := s.vars[r].id;
    var b, c := Eval(m, lOri), m[old'];
    FieldGoes(m, lOri, old', s.lens[l], fl, fr, taken, clearR);
    FieldGoesOn(m, s, t, lOri, old', taken, clearR, clearL, true);
    NewPair(m, s, t, l, b[fl := c[fr]], r, c[fr := false]);
    FieldStays(m, lOri, fl, clearL);
    FieldStaysPut(m, s, t, lOri, old', taken, clearR, clearL);
    NewPair(m, s, t, l, b[fl := false], r, c);
  }

  lemma NewPair(m: Model, s: Flow, t: Flow, l: nat, l': Bits, r: nat, r': Bits)
    requires |m| == |s.widths| && l < |s.vars| && r < |s.vars| && l != r && Exact(m + [l', r'], t)
    requires t.vars == s.vars[l := Init(|s.widths|)][r := Init(|s.widths| + 1)]
    ensures ContinuesWith(m, t, l, l', r, r')
  {
    assert m <= m + [l', r'];
  }

  lemma FieldScoped(constraints: seq<Formula>, lOri: Term, old': nat, n: nat, taken: Term, clearR: Bits, clearL: Bits,
                    copy: bool)
    requires Scoped(lOri, n) && Scoped(taken, n) && old' < n
    requires ScopedAll(constraints, n)
    ensures ScopedAll(constraints + FieldFormulas(lOri, old', n, n + 1, taken, clearR, clearL, copy), n + 2)
  {
    ScopedMore(lOri, n, n + 2);
    ScopedMore(taken, n, n + 2);
    var m := n + 2;
    ScopedEq(Var(n + 1), AndT(Var(old'), Lit(clearR)), m);
    ScopedEq(Var(n), taken, m);
    ScopedEq(Var(n), AndT(lOri, Lit(clearL)), m);
    ScopedEq(Var(n + 1), Var(old'), m);
    var goes := Both(Eq(Var(n + 1), AndT(Var(old'), Lit(clearR))), Eq(Var(n), taken));
    var stays := Both(Eq(Var(n), AndT(lOri, Lit(clearL))), Eq(Var(n + 1), Var(old')));
    ScopedPair(goes.f, goes.g, m);
    ScopedPair(stays.f, stays.g, m);
    ScopedPair(goes, stays, m);
    ScopedAllMore(constraints, n, FieldFormulas(lOri, old', n, n + 1, taken, clearR, clearL, copy), m);
  }

  lemma FieldModel(m: Model, lOri: Term, old': nat, l': nat, r': nat, width: nat, fl: nat, fr: nat, taken: Term,
                   clearR: Bits, clearL: Bits, copy: bool)
    requires AllHold(m, FieldFormulas(lOri, old', l', r', taken, clearR, clearL, copy))
    requires fl < |Eval(m, lOri)| == width && ClearsBit(clearR, |Eval(m, Var(old'))|, fr)
    requires copy ==> ClearsBit(clearL, width, fl)
    requires Spliced(m, lOri, width, fl, ExtractT(Var(old'), fr, fr), taken)
    ensures FieldPassed(Eval(m, lOri), Eval(m, Var(old')), Eval(m, Var(l')), Eval(m, Var(r')), fl, fr, copy)
  {
    var fs := FieldFormulas(lOri, old', l', r', taken, clearR, clearL, copy);
    if copy {
      var goes, stays := fs[0].f, fs[0].g;
      EitherHolds(m, goes, stays);
      if Holds(m, stays) {
        FieldKept(m, lOri, old', l', r', fl, fr, clearL);
      } else {
        assert Holds(m, goes.f) && Holds(m, goes.g);
        FieldTaken(m, lOri, old', l', r', fl, fr, clearR, taken, copy);
      }
    } else {
      assert Holds(m, fs[0]) && Holds(m, fs[1]);
      FieldTaken(m, lOri, old', l', r', fl, fr, clearR, taken, copy);
    }
  }

  lemma FieldTaken(m: Model, lOri: Term, old': nat, l': nat, r': nat, fl: nat, fr: nat, clearR: Bits, taken: Term,
                   copy: bool)
    requires Holds(m, Eq(Var(r'), AndT(Var(old'), Lit(clearR)))) && Holds(m, Eq(Var(l'), taken))
    requires fl < |Eval(m, lOri)| && ClearsBit(clearR, |Eval(m, Var(old'))|, fr)
    requires Spliced(m, lOri, |Eval(m, lOri)|, fl, ExtractT(Var(old'), fr, fr), taken)
    ensures FieldPassed(Eval(m, lOri), Eval(m, Var(old')), Eval(m, Var(l')), Eval(m, Var(r')), fl, fr, copy)
  {
    var r := Eval(m, Var(old'));
    assert Eval(m, ExtractT(Var(old'), fr, fr)) == [r[fr]];
    assert Eval(m, Lit(clearR)) == clearR && And(r, clearR) == r[fr := false];
  }

  lemma FieldKept(m: Model, lOri: Term, old': nat, l': nat, r': nat, fl: nat, fr: nat, clearL: Bits)
    requires Holds(m, Both(Eq(Var(l'), AndT(lOri, Lit(clearL))), Eq(Var(r'), Var(old'))))
    requires fr < |Eval(m, Var(old'))| && ClearsBit(clearL, |Eval(m, lOri)|, fl)
    ensures FieldPassed(Eval(m, lOri), Eval(m, Var(old')), Eval(m, Var(l')), Eval(m, Var(r')), fl, fr, true)
  {
    assert Holds(m, Eq(Var(l'), AndT(lOri, Lit(clearL)))) && Holds(m, Eq(Var(r'), Var(old')));
    assert Eval(m, Lit(clearL)) == clearL && And(Eval(m, lOri), clearL) == Eval(m, lOri)[fl := false];
  }

  /** Whichever way the bit went, only the overwritten bit of the target is gone. */
  lemma FieldCount(l: Bits, r: Bits, l': Bits, r': Bits, fl: nat, fr: nat, copy: bool)
    requires FieldPassed(l, r, l', r', fl, fr, copy)
    ensures Ones(l') + Ones(r') + (if l[fl] then 1 else 0) == Ones(l) + Ones(r)
  {
    OnesUpdate(r, fr, false);
    OnesUpdate(l, fl, r[fr]);
    OnesUpdate(l, fl, false);
  }

  lemma FieldTransfer(s: Flow, t: Flow, l: nat, fl: nat, lOri: Term, r: nat, fr: nat, l': nat, r': nat, width: nat,
                      copy: bool)
    requires Shaped(s) && Balanced(s) && l < |s.vars| && r < |s.vars| && l != r && s.vars[r].Init?
    requires s.widths <= t.widths && s.constraints <= t.constraints
    requires t.vars == s.vars[l := Init(l')][r := Init(r')] && t.created == s.created && t.drops == s.drops
    requires forall m :: Solves(m, t.widths, t.constraints) ==>
               FieldPassed(Before(m, s.vars[l], width), Eval(m, Var(s.vars[r].id)),
                           Eval(m, Var(l')), Eval(m, Var(r')), fl, fr, copy)
    requires forall m :: Solves(m, t.widths, t.constraints) ==>
               Ready(m, s.vars[l], width, fl, lOri, s.lost, t.lost)
    ensures Balanced(t)
  {
    forall m | Solves(m, t.widths, t.constraints)
      ensures Lost(m, t.lost) + Ones(Eval(m, Var(l'))) + Ones(Eval(m, Var(r')))
              == Lost(m, s.lost) + Held(m, s.vars[l]) + Held(m, s.vars[r])
    {
      FieldCount(Before(m, s.vars[l], width), Eval(m, Var(s.vars[r].id)),
                 Eval(m, Var(l')), Eval(m, Var(r')), fl, fr, copy);
      ZerosHoldNothing(width);
    }
    TransferKeeps(s, t, l, r, l', r');
  }

  /** `rustbv_merge`, when there is something to merge. */
  function Joined(bits: Bits, pointers: Option<Bits>): (b: Bits)
    requires pointers.Some? ==> |pointers.value| == |bits|
    ensures |b| == |bits|
  {
    if pointers == None then bits
    else seq(|bits|, i requires 0 <= i < |bits| => bits[i] || pointers.value[i])
  }

  /** The target held nothing before; afterwards one of the two vectors is the source's old
      one and the other is empty. */
  ghost predicate OneSideOwns(m: Model, l: IntraVar, r: IntraVar, l': IntraVar, r': IntraVar) {
    && r.Init? && l'.Init? && r'.Init? && Held(m, l) == 0
    && ((Eval(m, Var(r'.id)) == Eval(m, Var(r.id)) && Ones(Eval(m, Var(l'.id))) == 0)
        || (Eval(m, Var(l'.id)) == Eval(m, Var(r.id)) && Ones(Eval(m, Var(r'.id))) == 0))
  }

  /** A whole-value assignment from `s` to `t`, where `s0` is the state before the target was
      constrained to be empty. */
  lemma PassedStep(s0: Flow, s: Flow, t: Flow, l: nat, r: nat, copy: bool)
    requires Shaped(s0) && Shaped(s) && Balanced(s) && ScopedAll(s.constraints, |s.widths|) && Grown(s0, s)
    requires l < |s.vars| && r < |s.vars| && l != r && s.vars[r].Init?
    requires s0.vars == s.vars && s0.lens == s.lens && s0.widths == s.widths
    requires s.constraints == s0.constraints
                              + (if s.vars[l].Init? then [Eq(Var(s.vars[l].id), Lit(Zeros(s.lens[l])))] else [])
    requires var n := |s.widths|;
             t == s.(vars := s.vars[l := Init(n)][r := Init(n + 1)], lens := s.lens[l := s.lens[r]],
                     widths := s.widths + [s.lens[r], s.lens[r]],
                     constraints := s.constraints + PassedFormulas(s.vars[r].id, n, n + 1, s.lens[r], copy))
    ensures Shaped(t) && Balanced(t) && ScopedAll(t.constraints, |t.widths|) && NeedsEmpty(s0, t, l)
    ensures copy ==> CopiesEitherWay(s0, t, l, r)
    ensures forall m :: Solves(m, t.widths, t.constraints) ==>
              OneSideOwns(m, s.vars[l], s.vars[r], t.vars[l], t.vars[r])
              && (copy || Eval(m, Var(t.vars[l].id)) == Eval(m, Var(s.vars[r].id)))
  {
    var old', width, l', r' := s.vars[r].id, s.lens[r], |s.widths|, |s.widths| + 1;
    forall m | Solves(m, t.widths, t.constraints)
      ensures OneSideOwns(m, s.vars[l], s.vars[r], Init(l'), Init(r'))
      ensures (copy || Eval(m, Var(l')) == Eval(m, Var(old')))
    {
      TargetEmpty(m, s, t, l);
      SuffixHolds(m, t.widths, s.constraints, PassedFormulas(old', l', r', width, copy));
      PassedModel(m, old', l', r', width, copy);
    }
    OwnedTransfer(s, t, l, r, l', r');
    PassedFree(s, t, old', width, copy);
    EmptyOnly(s0, s, l);
    ThenFree(s0, s, t);
    if copy {
      PassedEitherWay(s0, s, t, l, r, width);
    }
  }

  /** One of the fresh vectors is the old one and the other is empty; in a move the first. */
  lemma PassedModel(m: Model, old': nat, l': nat, r': nat, width: nat, copy: bool)
    requires AllHold(m, PassedFormulas(old', l', r', width, copy))
    ensures || (Eval(m, Var(l')) == Eval(m, Var(old')) && Ones(Eval(m, Var(r'))) == 0)
            || (copy && Eval(m, Var(r')) == Eval(m, Var(old')) && Ones(Eval(m, Var(l'))) == 0)
  {
    var fs := PassedFormulas(old', l', r', width, copy);
    if copy {
      EitherHolds(m, fs[0].f, fs[0].g);
      if Holds(m, fs[0].f) {
        PassedOwns(m, old', r', l', width);
      } else {
        PassedOwns(m, old', l', r', width);
      }
    } else {
      assert Holds(m, fs[0]) && Holds(m, fs[1]);
      PassedOwns(m, old', l', r', width);
    }
  }

  lemma OwnedTransfer(s: Flow, t: Flow, l: nat, r: nat, l': nat, r': nat)
    requires Shaped(s) && Balanced(s) && l < |s.vars| && r < |s.vars| && l != r
    requires s.widths <= t.widths && s.constraints <= t.constraints
    requires t.vars == s.vars[l := Init(l')][r := Init(r')] && t.created == s.created && t.drops == s.drops
    requires t.lost == s.lost
    requires forall m :: Solves(m, t.widths, t.constraints) ==> OneSideOwns(m, s.vars[l], s.vars[r], Init(l'), Init(r'))
    ensures Balanced(t)
  {
    forall m | Solves(m, t.widths, t.constraints)
      ensures Lost(m, t.lost) + Ones(Eval(m, Var(l'))) + Ones(Eval(m, Var(r')))
              == Lost(m, s.lost) + Held(m, s.vars[l]) + Held(m, s.vars[r])
    {
      assert OneSideOwns(m, s.vars[l], s.vars[r], Init(l'), Init(r'));
    }
    TransferKeeps(s, t, l, r, l', r');
  }

  /** An initialised target whose emptiness is the last constraint so far holds nothing. */
  lemma TargetEmpty(m: Model, s: Flow, t: Flow, l: nat)
    requires Shaped(s) && l < |s.vars| && s.constraints <= t.constraints && Solves(m, t.widths, t.constraints)
    requires s.vars[l].Init? ==>
               (|s.constraints| > 0
                && s.constraints[|s.constraints| - 1] == Eq(Var(s.vars[l].id), Lit(Zeros(s.lens[l]))))
    ensures Held(m, s.vars[l]) == 0
  {
    if s.vars[l].Init? {
      assert t.constraints[|s.constraints| - 1] == s.constraints[|s.constraints| - 1];
      assert Holds(m, t.constraints[|s.constraints| - 1]);
      ZerosHoldNothing(s.lens[l]);
    }
  }

  /** More constraints leave fewer solutions. */
  lemma MoreConstraints(s: Flow, t: Flow)
    requires Balanced(s) && t == s.(widths := t.widths, constraints := t.constraints)
    requires s.widths <= t.widths && s.constraints <= t.constraints
    ensures Balanced(t)
  {
    forall m | Solves(m, t.widths, t.constraints)
      ensures t.created == Cleared(m, t.drops) + Lost(m, t.lost) + Total(m, t.vars)
    {
      SolvesLess(m, s, t);
    }
  }

  lemma {:induction false} NothingHeld(m: Model, vars: seq<IntraVar>)
    requires forall i :: 0 <= i < |vars| ==> !vars[i].Init?
    ensures Total(m, vars) == 0
    decreases |vars|
  {
    if vars != [] {
      NothingHeld(m, vars[1..]);
    }
  }

  // ---------------------------------------------------------------- drops

  /** What a drop names: a projection deeper than one field, the whole local, or one field. */
  datatype Target = Deeper | Whole | Field(index: nat)

  /** Whether the drop makes a new vector. */
  predicate Affects(kept: Bits, target: Target) {
    match target
    case Deeper => false
    case Whole => true
    case Field(index) => index < |kept|
  }

  /** Whether the drop avoids the overflow and the indices that do not fit. */
  predicate Droppable(len: nat, kept: Bits, target: Target, recovery: bool) {
    match target
    case Deeper => true
    case Whole => recovery || |kept| <= 63
    case Field(index) => index < |kept| && kept[index] == recovery ==> index < len
  }

  /** Bit by bit: a bit survives unless the drop releases it. A whole drop releases what the
      layout does not mark as kept and a recovery everything; a field drop one owned field and
      a field recovery one kept field. */
  ghost predicate Dropped(b: Bits, b': Bits, kept: Bits, target: Target, recovery: bool) {
    |b'| == |b| && forall i :: 0 <= i < |b| ==> b'[i] == (b[i] && !Released(i, kept, target, recovery))
  }

  predicate Released(i: nat, kept: Bits, target: Target, recovery: bool) {
    match target
    case Deeper => false
    case Whole => recovery || i >= |kept| || !kept[i]
    case Field(index) => i == index < |kept| && kept[i] == recovery
  }

  /** The term for the vector after a drop; `None` where the source panics. */
  method DropTerm(old': nat, len: nat, kept: Bits, target: Target, recovery: bool) returns (t: Option<Term>)
    requires Affects(kept, target)
    ensures t.Some? <==> Droppable(len, kept, target, recovery)
    ensures t.Some? ==> forall n :: old' < n ==> Scoped(t.value, n)
    ensures t.Some? ==> forall m :: |Eval(m, Var(old'))| == len ==>
              Dropped(Eval(m, Var(old')), Eval(m, t.value), kept, target, recovery)
  {
    match target
    case Whole =>
      var mask := Zeros(len);
      if !recovery {
        var n := RustBvToInt(kept);
        if n == None {
          return None;
        }
        mask := FromU64(n.value, len);
      }
      t := Some(AndT(Var(old'), Lit(mask)));
      forall m | |Eval(m, Var(old'))| == len
        ensures Dropped(Eval(m, Var(old')), Eval(m, t.value), kept, target, recovery)
      {
        assert Eval(m, Lit(mask)) == mask;
        WholeDrop(Eval(m, Var(old')), kept, mask, recovery);
      }
    case Field(index) =>
      if kept[index] != recovery {
        t := Some(Var(old'));
      } else if index < len {
        var spliced := SpliceTerm(Var(old'), len, index, Lit([false]));
        t := Some(spliced);
        forall m | |Eval(m, Var(old'))| == len
          ensures Dropped(Eval(m, Var(old')), Eval(m, t.value), kept, target, recovery)
        {
          assert Spliced(m, Var(old'), len, index, Lit([false]), spliced);
        }
        forall n | old' < n ensures Scoped(spliced, n) {
          assert Scoped(Var(old'), n) && Scoped(Lit([false]), n);
        }
      } else {
        t := None;
      }
  }

  lemma WholeDrop(b: Bits, kept: Bits, mask: Bits, recovery: bool)
    requires mask == if recovery then Zeros(|b|) else FromU64(Value(kept), |b|)
    ensures Dropped(b, And(b, mask), kept, Whole, recovery)
  {
    forall i | 0 <= i < |b| ensures And(b, mask)[i] == (b[i] && !Released(i, kept, Whole, recovery)) {
      if !recovery {
        NumeralBit(kept, |b|, i);
      }
    }
  }

  /** Dropping a value whose layout owns nothing clears no bit: the bits of a raw pointer
      outlive every drop and wait for a recovery. */
  lemma UnownedOutlivesDrops(b: Bits, b': Bits, layout: seq<Owner>, target: Target)
    requires |layout| == |b| && (forall i :: 0 <= i < |layout| ==> layout[i] == Unowned)
    requires Dropped(b, b', ReverseBits(layout), target, false)
    ensures b' == b
  {
    LayoutAligned(layout);
    forall i | 0 <= i < |b| ensures b'[i] == b[i] {
      assert ReverseBits(layout)[i];
    }
  }

  /** With layout and vector of one length, a whole drop clears exactly the bits that the layout
      marks as owned. */
  lemma DropClearsOwned(b: Bits, b': Bits, layout: seq<Owner>)
    requires |layout| == |b| && (forall i :: 0 <= i < |layout| ==> layout[i] != Uninit)
    requires Dropped(b, b', ReverseBits(layout), Whole, false)
    ensures forall i :: 0 <= i < |b| ==> b'[i] == (b[i] && layout[i] != Owned)
  {
    LayoutAligned(layout);
  }

  /** A field drop clears its bit exactly when the layout owns the field, a field recovery exactly when
      it does not; no other bit changes. */
  lemma FieldDropClears(b: Bits, b': Bits, layout: seq<Owner>, j: nat, recovery: bool)
    requires |layout| == |b| && (forall i :: 0 <= i < |layout| ==> layout[i] != Uninit) && j < |layout|
    requires Dropped(b, b', ReverseBits(layout), Field(j), recovery)
    ensures b' == if (layout[j] == Owned) == !recovery then b[j := false] else b
  {
    LayoutAligned(layout);
  }

  /** A whole drop always leaves nothing. */
  ghost predicate WholeDropClears(kept: Bits, width: nat) {
    forall b: Bits, b': Bits :: |b| == width && Dropped(b, b', kept, Whole, false) ==> b' == Zeros(width)
  }

  /** No drop of a field changes anything. */
  ghost predicate FieldDropsKeep(kept: Bits, width: nat) {
    forall b: Bits, b': Bits, f :: |b| == width && Dropped(b, b', kept, Field(f), false) ==> b' == b
  }

  /** A local drops as a whole or not at all exactly when it has no layout, as the arguments. */
  lemma LayoutlessIff(kept: Bits, width: nat)
    requires width > 0
    ensures WholeDropClears(kept, width) && FieldDropsKeep(kept, width) <==> kept == []
  {
    if kept != [] {
      var target := if kept[0] then Whole else Field(0);
      var b: Bits := seq(width, i => true);
      var b': Bits := seq(width, i requires 0 <= i < width => !Released(i, kept, target, false));
      assert Dropped(b, b', kept, target, false) && b'[0] == kept[0];
    }
  }

  /** An owned argument of one field: without its layout the drop of the field leaves the bit that
      the layout would have released, and the drop of the whole clears a pointer's bit that the
      layout would have kept. */
  lemma ArgumentDrops()
    ensures Dropped([true], [true], ReverseBits([]), Field(0), false)
            && Dropped([true], [false], ReverseBits([Owned]), Field(0), false)
    ensures Dropped([true], [false], ReverseBits([]), Whole, false)
            && Dropped([true], [true], ReverseBits([Unowned]), Whole, false)
  {
    assert ReverseBits([Owned]) == [false] && ReverseBits([Unowned]) == [true];
  }

  // ---------------------------------------------------------------- return

  ghost predicate Empties(s: Flow, lo: nat, hi: nat)
    requires hi <= |s.vars|
  {
    forall m :: Solves(m, s.widths, s.constraints) ==> forall k :: lo <= k < hi ==> Held(m, s.vars[k]) == 0
  }

  /** The locals from `lo` on own nothing. */
  ghost predicate Clean(m: Model, vars: seq<IntraVar>, lo: nat, hi: nat)
    requires hi <= |vars|
  {
    forall k :: lo <= k < hi ==> Held(m, vars[k]) == 0
  }

  /** Exactly the clean solutions of `s` survive in `t`. */
  ghost predicate ReturnsIff(s: Flow, t: Flow, lo: nat, hi: nat)
    requires hi <= |s.vars|
  {
    forall m :: Exact(m, s) ==> (Continues(m, t) <==> Clean(m, s.vars, lo, hi))
  }

  ghost predicate Solvable(s: Flow) {
    exists m :: Exact(m, s)
  }

  ghost predicate CleanlySolvable(s: Flow, lo: nat) {
    exists m :: Exact(m, s) && Clean(m, s.vars, lo, |s.vars|)
  }

  lemma ReturnsIffStart(s: Flow, t: Flow, lo: nat)
    requires Free(s, t)
    ensures ReturnsIff(s, t, lo, 0)
  {
  }

  lemma ReturnsIffGrow(s: Flow, t: Flow, t': Flow, lo: nat, i: nat)
    requires Shaped(s) && i < |s.vars| == |t.vars| && Grown(s, t) && Grown(t, t') && lo > 0
    requires i > 0 ==> t.vars[i] == s.vars[i]
    requires ReturnsIff(s, t, lo, i)
    requires Shaped(t) && (if lo <= i && t.vars[i].Init? && t.lens[i] != 0 then NeedsEmpty(t, t', i) else Free(t, t'))
    ensures ReturnsIff(s, t', lo, i + 1)
  {
    forall m | Exact(m, s) ensures Continues(m, t') <==> Clean(m, s.vars, lo, i + 1) {
      if Clean(m, s.vars, lo, i + 1) {
        assert Clean(m, s.vars, lo, i);
        var m1 :| m <= m1 && Exact(m1, t);
        if lo <= i {
          HeldStable(m, m1, s.vars[i]);
        }
        var m2 :| m1 <= m2 && Exact(m2, t');
        assert m <= m2;
      }
      if Continues(m, t') {
        var m2 :| m <= m2 && Exact(m2, t');
        Restrict(m2, t, t');
        var m1 := m2[..|t.widths|];
        assert m <= m1 && m1 <= m2;
        if lo <= i {
          HeldStable(m, m1, s.vars[i]);
        }
      }
    }
  }

  /** The constraint of a return on one local excludes the solutions in which it owns something. */
  lemma ReturnOnly(s: Flow, t: Flow, i: nat)
    requires Shaped(s) && ScopedAll(s.constraints, |s.widths|) && i < |s.vars| && s.vars[i].Init?
    requires t.widths == s.widths + [s.lens[i]]
    requires var ret := Var(|s.widths|);
             t.constraints == s.constraints + [Both(Eq(ret, Var(s.vars[i].id)), Eq(ret, Lit(Zeros(s.lens[i]))))]
    requires forall m :: Solves(m, t.widths, t.constraints) ==> Held(m, s.vars[i]) == 0
    ensures NeedsEmpty(s, t, i)
  {
    var ret, id := Var(|s.widths|), s.vars[i].id;
    forall m | Exact(m, s) ensures Continues(m, t) <==> Held(m, s.vars[i]) == 0 {
      if Held(m, s.vars[i]) == 0 {
        OnesZero(m[id]);
        var f, g := Eq(ret, Var(id)), Eq(ret, Lit(Zeros(s.lens[i])));
        assert Holds(m + [m[id]], f) && Holds(m + [m[id]], g);
        assert Holds(m + [m[id]], Both(f, g));
        AppendSolves(m, s, t, [m[id]], [Both(f, g)]);
      }
      if Continues(m, t) {
        var m' :| m <= m' && Exact(m', t);
        HeldStable(m, m', s.vars[i]);
      }
    }
  }

  /** What a return achieves, from the drop of the return place in `s` to the end in `t`. */
  lemma ReturnDone(s0: Flow, s: Flow, t: Flow, argCount: nat)
    requires Balanced(t) && argCount < |t.vars| == |s0.vars| && Grown(s0, t)
    requires t == s.(widths := t.widths, constraints := t.constraints)
    requires Empties(t, argCount + 1, |t.vars|) && ReturnsIff(s0, t, argCount + 1, |t.vars|)
    ensures Settled(t, argCount) && (Solvable(t) <==> CleanlySolvable(s0, argCount + 1))
  {
    EmptiesSettle(t, argCount);
    SolvableIff(s0, t, argCount + 1);
  }

  /** A leak is reported exactly when every solution leaves ownership in some local. */
  lemma SolvableIff(s: Flow, t: Flow, lo: nat)
    requires Grown(s, t) && ReturnsIff(s, t, lo, |s.vars|)
    ensures Solvable(t) <==> CleanlySolvable(s, lo)
  {
    if Solvable(t) {
      var m' :| Exact(m', t);
      Restrict(m', s, t);
      var m := m'[..|s.widths|];
      assert m <= m';
      assert Exact(m, s) && Clean(m, s.vars, lo, |s.vars|);
    }
  }

  /** The balance after a return. */
  ghost predicate Settled(s: Flow, argCount: nat) {
    && argCount < |s.vars|
    && (forall m :: Solves(m, s.widths, s.constraints) ==>
          s.created == Cleared(m, s.drops) + Lost(m, s.lost) + Total(m, s.vars[..argCount + 1]))
  }

  /** The balance after a return, read in the state before it. */
  ghost predicate SettledBefore(m: Model, s: Flow, argCount: nat)
    requires argCount < |s.vars|
  {
    s.created == Cleared(m, s.drops) + Lost(m, s.lost) + Total(m, s.vars[..argCount + 1])
  }

  lemma ReturnSettles(s: Flow, t: Flow, argCount: nat)
    requires Balanced(s) && argCount < |s.vars| == |t.vars| && Grown(s, t) && Empties(t, argCount + 1, |t.vars|)
    requires forall k :: 0 < k < |s.vars| ==> t.vars[k] == s.vars[k]
    ensures forall m :: Solves(m, t.widths, t.constraints) ==> SettledBefore(m, s, argCount)
  {
    forall m | Solves(m, t.widths, t.constraints) ensures SettledBefore(m, s, argCount) {
      SolvesLess(m, s, t);
      TotalPrefix(m, s.vars, argCount + 1);
    }
  }

  lemma EmptiesGrow(s: Flow, t: Flow, lo: nat, i: nat)
    requires Shaped(s) && i < |s.vars| && Empties(s, lo, i)
    requires t == s.(widths := t.widths, constraints := t.constraints)
    requires s.widths <= t.widths && s.constraints <= t.constraints
    requires lo <= i && s.vars[i].Init? && s.lens[i] != 0 ==>
               forall m :: Solves(m, t.widths, t.constraints) ==> Held(m, t.vars[i]) == 0
    ensures Empties(t, lo, i + 1)
  {
    forall m | Solves(m, t.widths, t.constraints) ensures forall k :: lo <= k < i + 1 ==> Held(m, t.vars[k]) == 0 {
      SolvesLess(m, s, t);
    }
  }

  lemma EmptiesSettle(s: Flow, argCount: nat)
    requires Balanced(s) && argCount < |s.vars| && Empties(s, argCount + 1, |s.vars|)
    ensures Settled(s, argCount)
  {
    forall m | Solves(m, s.widths, s.constraints) ensures Total(m, s.vars) == Total(m, s.vars[..argCount + 1]) {
      TotalPrefix(m, s.vars, argCount + 1);
    }
  }

  lemma {:induction false} TotalPrefix(m: Model, vars: seq<IntraVar>, n: nat)
    requires n <= |vars| && forall k :: n <= k < |vars| ==> Held(m, vars[k]) == 0
    ensures Total(m, vars) == Total(m, vars[..n])
    decreases |vars|
  {
    if vars != [] {
      if n == 0 {
        TotalPrefix(m, vars[1..], 0);
        assert vars[..0] == vars[1..][..0];
      } else {
        TotalPrefix(m, vars[1..], n - 1);
        assert vars[..n][1..] == vars[1..][..n - 1];
      }
    }
  }
}
