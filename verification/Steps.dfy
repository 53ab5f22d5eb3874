/** From constraints to bits: the solutions of the constraints after an operation are exactly the
    solutions before it whose vectors allow the operation, with a vector choice for each of its
    outcomes. So a run is solvable exactly when its bits can end clean. */
module Steps {
  import opened Wrappers
  import opened BitVectors
  import opened Constraints
  import opened Balance
  import opened Shapes
  import opened Holdings

  // ---------------------------------------------------------------- shapes of states

  function StatusOf(v: IntraVar): (s: Status) {
    match v
    case Declared => Unset
    case Init(_) => Live
    case Unsupported => GivenUp
  }

  ghost function LocalAt(s: Flow, i: nat): (x: Local)
    requires Shaped(s) && i < |s.vars|
  {
    Local(StatusOf(s.vars[i]), s.lens[i], s.layouts[i], s.tys[i])
  }

  ghost function ShapeOf(s: Flow): (sh: Shape)
    requires Shaped(s)
    ensures |sh| == |s.vars| && forall i :: 0 <= i < |sh| ==> sh[i] == LocalAt(s, i)
  {
    seq(|s.vars|, i requires 0 <= i < |s.vars| => LocalAt(s, i))
  }

  lemma ShapeUpdate(s: Flow, t: Flow, l: nat, r: nat)
    requires Shaped(s) && Shaped(t) && Elsewhere(s, t, l, r) && l < |s.vars| && r < |s.vars|
    ensures ShapeOf(t) == ShapeOf(s)[l := LocalAt(t, l)][r := LocalAt(t, r)]
  {
  }

  lemma ShapeUpdateOne(s: Flow, t: Flow, u: nat)
    requires Shaped(s) && Shaped(t) && Elsewhere(s, t, u, u) && u < |s.vars|
    ensures ShapeOf(t) == ShapeOf(s)[u := LocalAt(t, u)]
  {
  }

  // ---------------------------------------------------------------- vectors of a solution

  ghost function Own(m: Model, s: Flow): (h: Holding)
    ensures |h| == |s.vars|
  {
    seq(|s.vars|, i requires 0 <= i < |s.vars| => OwnOf(m, s.vars[i]))
  }

  lemma OwnFits(m: Model, s: Flow)
    requires Shaped(s) && Solves(m, s.widths, s.constraints)
    ensures Fitting(ShapeOf(s), Own(m, s))
  {
  }

  lemma OwnStable(m: Model, m': Model, s: Flow)
    requires Shaped(s) && m <= m' && |m| >= |s.widths|
    ensures Own(m, s) == Own(m', s)
  {
  }

  lemma OwnElsewhere(m: Model, s: Flow, t: Flow, l: nat, r: nat)
    requires Elsewhere(s, t, l, r) && l < |s.vars| && r < |s.vars|
    ensures Own(m, t) == Own(m, s)[l := OwnOf(m, t.vars[l])][r := OwnOf(m, t.vars[r])]
  {
  }

  ghost predicate ContinuesAs(m: Model, t: Flow, h: Holding) {
    exists m' :: m <= m' && Exact(m', t) && Own(m', t) == h
  }

  lemma ContinuesAsPair(m: Model, s: Flow, t: Flow, l: nat, bl: Bits, r: nat, br: Bits)
    requires Shaped(s) && Elsewhere(s, t, l, r) && l < |s.vars| && r < |s.vars| && |m| >= |s.widths|
    requires ContinuesWith(m, t, l, bl, r, br)
    ensures ContinuesAs(m, t, Own(m, s)[l := bl][r := br])
  {
    var m' :| m <= m' && Exact(m', t) && OwnOf(m', t.vars[l]) == bl && OwnOf(m', t.vars[r]) == br;
    OwnStable(m, m', s);
    OwnElsewhere(m', s, t, l, r);
  }

  // ---------------------------------------------------------------- one step

  /** Every solution after the step comes from an allowed one by one of the outcomes. */
  ghost predicate Follows(s: Flow, t: Flow, argCount: nat, op: Op)
    requires Shaped(s) && InRange(op, |s.vars|)
  {
    forall m :: Exact(m, t) ==> Reached(m, s, t, argCount, op)
  }

  ghost predicate Reached(m: Model, s: Flow, t: Flow, argCount: nat, op: Op)
    requires Shaped(s) && InRange(op, |s.vars|)
  {
    && Allows(ShapeOf(s), Own(m, s), argCount, op)
    && (|| Own(m, t) == Outcome(ShapeOf(s), Own(m, s), op, false)
        || Own(m, t) == Outcome(ShapeOf(s), Own(m, s), op, true))
  }

  /** Every allowed solution goes on with each outcome. */
  ghost predicate Realises(s: Flow, t: Flow, argCount: nat, op: Op)
    requires Shaped(s) && InRange(op, |s.vars|)
  {
    forall m, stays: bool :: Exact(m, s) && Allows(ShapeOf(s), Own(m, s), argCount, op) ==>
      ContinuesAs(m, t, Outcome(ShapeOf(s), Own(m, s), op, stays))
  }

  /** The outcome does not depend on a choice. */
  ghost predicate Settles(sh: Shape, op: Op)
    requires InRange(op, |sh|)
  {
    forall h: Holding :: |h| == |sh| ==> Outcome(sh, h, op, false) == Outcome(sh, h, op, true)
  }

  lemma OnlyOutcome(s: Flow, t: Flow, argCount: nat, op: Op)
    requires Shaped(s) && InRange(op, |s.vars|) && Follows(s, t, argCount, op) && Settles(ShapeOf(s), op)
    requires forall m :: Exact(m, s) && Allows(ShapeOf(s), Own(m, s), argCount, op) ==> Continues(m, t)
    ensures Realises(s, t, argCount, op)
  {
    forall m, stays: bool | Exact(m, s) && Allows(ShapeOf(s), Own(m, s), argCount, op)
      ensures ContinuesAs(m, t, Outcome(ShapeOf(s), Own(m, s), op, stays))
    {
      var m' :| m <= m' && Exact(m', t);
      assert Reached(m', s, t, argCount, op);
      OwnStable(m, m', s);
      assert Outcome(ShapeOf(s), Own(m, s), op, false) == Outcome(ShapeOf(s), Own(m, s), op, true);
    }
  }

  /** An operation that leaves everything as it is. */
  lemma NothingHappens(s: Flow, t: Flow, argCount: nat, op: Op)
    requires Shaped(s) && InRange(op, |s.vars|) && |t.vars| == |s.vars|
    requires t.widths == s.widths && t.constraints == s.constraints
    requires forall i :: 0 <= i < |s.vars| ==> t.vars[i] == s.vars[i] || (!t.vars[i].Init? && !s.vars[i].Init?)
    requires forall h: Holding :: Fitting(ShapeOf(s), h) ==>
               (Allows(ShapeOf(s), h, argCount, op)
                && Outcome(ShapeOf(s), h, op, false) == h == Outcome(ShapeOf(s), h, op, true))
    ensures Follows(s, t, argCount, op) && Realises(s, t, argCount, op)
  {
    forall m | Exact(m, t) ensures Reached(m, s, t, argCount, op) {
      OwnFits(m, s);
      assert Own(m, t) == Own(m, s);
    }
    forall m, stays: bool | Exact(m, s)
      ensures ContinuesAs(m, t, Outcome(ShapeOf(s), Own(m, s), op, stays))
    {
      OwnFits(m, s);
      assert m <= m && Exact(m, t) && Own(m, t) == Own(m, s);
    }
  }

  /** Both locals are unsupported, whatever they held is given up, and nothing else changed. */
  ghost predicate GaveUpBoth(s: Flow, t: Flow, l: nat, r: nat)
    requires Shaped(s) && l < |s.vars| && r < |s.vars|
  {
    && t.vars == s.vars[l := Unsupported][r := Unsupported] && Elsewhere(s, t, l, r) && Shaped(t)
    && t.widths == s.widths && t.constraints == s.constraints
    && LocalAt(t, l) == Abandon(LocalAt(s, l)) && LocalAt(t, r) == Abandon(LocalAt(s, r))
    && (!s.vars[l].Init? && !s.vars[r].Init? ==> t.lost == s.lost)
  }

  lemma GivingUpFollows(s: Flow, t: Flow, argCount: nat, op: Op, l: nat, r: nat)
    requires Shaped(s) && InRange(op, |s.vars|) && l < |s.vars| && r < |s.vars| && GaveUpBoth(s, t, l, r)
    requires forall h: Holding :: |h| == |s.vars| ==>
               (Allows(ShapeOf(s), h, argCount, op) && Outcome(ShapeOf(s), h, op, false) == Neither(h, l, r)
                && Outcome(ShapeOf(s), h, op, true) == Neither(h, l, r))
    ensures Follows(s, t, argCount, op) && Realises(s, t, argCount, op)
  {
    forall m | Exact(m, t) ensures Reached(m, s, t, argCount, op) {
      OwnElsewhere(m, s, t, l, r);
    }
    StayFree(s, t);
    OnlyOutcome(s, t, argCount, op);
  }

  /** What any operation does to the shape, the records and the solutions. */
  ghost predicate Stepped(s: Flow, t: Flow, argCount: nat, op: Op) {
    && Shaped(s) && Shaped(t) && InRange(op, |s.vars|) && Next(ShapeOf(s), op) == Some(ShapeOf(t))
    && t.created == s.created + Made(ShapeOf(s), op) && Grown(s, t)
    && (Keeps(ShapeOf(s), argCount, op) ==> t.lost == s.lost)
    && Follows(s, t, argCount, op) && Realises(s, t, argCount, op)
  }

  // ---------------------------------------------------------------- whole values

  /** What a whole-value assignment that goes ahead does to the solutions. */
  ghost predicate PassedOn(s: Flow, t: Flow, l: nat, r: nat, copy: bool)
    requires l < |s.vars| == |t.vars| && r < |s.vars|
  {
    && NeedsEmpty(s, t, l) && (copy ==> CopiesEitherWay(s, t, l, r))
    && (forall m :: Solves(m, t.widths, t.constraints) ==>
          OneSideOwns(m, s.vars[l], s.vars[r], t.vars[l], t.vars[r])
          && (copy || Eval(m, Var(t.vars[l].id)) == Eval(m, Var(s.vars[r].id))))
  }

  lemma AssignFollows(s: Flow, t: Flow, argCount: nat, op: Op)
    requires Shaped(s) && Shaped(t) && (op.Copy? || op.Move?) && InRange(op, |s.vars|) && Elsewhere(s, t, op.l, op.r)
    requires WholeProceeds(LocalAt(s, op.l), LocalAt(s, op.r), op.priority)
    requires s.widths <= t.widths && t.lens[op.l] == t.lens[op.r] == s.lens[op.r]
    requires PassedOn(s, t, op.l, op.r, op.Copy?)
    ensures Follows(s, t, argCount, op)
  {
    var l, r := op.l, op.r;
    forall m | Exact(m, t) ensures Reached(m, s, t, argCount, op) {
      assert OneSideOwns(m, s.vars[l], s.vars[r], t.vars[l], t.vars[r]);
      EmptyHoldsNothing(OwnOf(m, s.vars[l]));
      EmptyHoldsNothing(OwnOf(m, t.vars[l]));
      EmptyHoldsNothing(OwnOf(m, t.vars[r]));
      OwnElsewhere(m, s, t, l, r);
      assert Own(m, s)[r] == OwnOf(m, s.vars[r]);
      assert Own(m, s) == Own(m, s)[r := OwnOf(m, s.vars[r])];
    }
  }

  lemma AssignRealises(s: Flow, t: Flow, argCount: nat, op: Op)
    requires Shaped(s) && Shaped(t) && (op.Copy? || op.Move?) && InRange(op, |s.vars|) && Elsewhere(s, t, op.l, op.r)
    requires WholeProceeds(LocalAt(s, op.l), LocalAt(s, op.r), op.priority)
    requires Follows(s, t, argCount, op) && PassedOn(s, t, op.l, op.r, op.Copy?)
    ensures Realises(s, t, argCount, op)
  {
    var l, r := op.l, op.r;
    forall m | Exact(m, s) && Allows(ShapeOf(s), Own(m, s), argCount, op) ensures Held(m, s.vars[l]) == 0 {
      assert Own(m, s)[l] == OwnOf(m, s.vars[l]);
      EmptyHoldsNothing(OwnOf(m, s.vars[l]));
    }
    if op.Move? {
      OnlyOutcome(s, t, argCount, op);
    } else {
      forall m, stays: bool | Exact(m, s) && Allows(ShapeOf(s), Own(m, s), argCount, op)
        ensures ContinuesAs(m, t, Outcome(ShapeOf(s), Own(m, s), op, stays))
      {
        var b := OwnOf(m, s.vars[r]);
        assert Own(m, s)[r] == b && Own(m, s)[l := Zeros(|b|)] == Own(m, s)[l := Zeros(|b|)][r := b];
        if stays {
          ContinuesAsPair(m, s, t, l, Zeros(|b|), r, b);
        } else {
          ContinuesAsPair(m, s, t, l, b, r, Zeros(|b|));
        }
      }
    }
  }

  /** What a whole-value assignment does in each of its three cases. */
  ghost predicate AssignedWhole(s: Flow, t: Flow, op: Op)
    requires Shaped(s) && InRange(op, |s.vars|) && (op.Copy? || op.Move?) && |t.vars| == |s.vars|
  {
    if WholeAbandons(LocalAt(s, op.l), LocalAt(s, op.r), op.priority) then GaveUpBoth(s, t, op.l, op.r)
    else if WholeProceeds(LocalAt(s, op.l), LocalAt(s, op.r), op.priority)
    then t.lost == s.lost && PassedOn(s, t, op.l, op.r, op.Copy?)
    else t == s
  }

  lemma AssignSimulates(s: Flow, t: Flow, argCount: nat, op: Op)
    requires Shaped(s) && Shaped(t) && InRange(op, |s.vars|) && (op.Copy? || op.Move?)
    requires Elsewhere(s, t, op.l, op.r) && s.widths <= t.widths && AssignedWhole(s, t, op)
    requires (LocalAt(t, op.l), LocalAt(t, op.r)) == AssignWhole(LocalAt(s, op.l), LocalAt(s, op.r), op.priority)
    ensures Follows(s, t, argCount, op) && Realises(s, t, argCount, op)
  {
    if WholeAbandons(LocalAt(s, op.l), LocalAt(s, op.r), op.priority) {
      GivingUpFollows(s, t, argCount, op, op.l, op.r);
    } else if WholeProceeds(LocalAt(s, op.l), LocalAt(s, op.r), op.priority) {
      AssignFollows(s, t, argCount, op);
      AssignRealises(s, t, argCount, op);
    } else {
      NothingHappens(s, t, argCount, op);
    }
  }

  lemma AssignStepped(s: Flow, t: Flow, argCount: nat, op: Op)
    requires Shaped(s) && Shaped(t) && InRange(op, |s.vars|) && (op.Copy? || op.Move?)
    requires Elsewhere(s, t, op.l, op.r) && Grown(s, t) && t.created == s.created && AssignedWhole(s, t, op)
    requires (LocalAt(t, op.l), LocalAt(t, op.r)) == AssignWhole(LocalAt(s, op.l), LocalAt(s, op.r), op.priority)
    ensures Stepped(s, t, argCount, op)
  {
    AssignSimulates(s, t, argCount, op);
    ShapeUpdate(s, t, op.l, op.r);
  }

  // ---------------------------------------------------------------- fields

  /** The shapes of both sides after a field assignment that went ahead. */
  ghost predicate FieldShaped(s: Flow, t: Flow, l: nat, r: nat, layout: seq<Owner>, ty: nat)
    requires Shaped(s) && Shaped(t) && l < |s.vars| && r < |s.vars| && |t.vars| == |s.vars|
  {
    && LocalAt(t, l) == (if s.vars[l].Init? then LocalAt(s, l) else Local(Live, |layout|, layout, ty))
    && LocalAt(t, r) == LocalAt(s, r)
  }

  lemma FieldShapes(s: Flow, t: Flow, l: nat, r: nat, layout: seq<Owner>, ty: nat)
    requires Shaped(s) && Shaped(t) && l < |s.vars| == |t.vars| && r < |s.vars| && l != r && s.vars[r].Init?
    requires t.vars[l].Init? && t.vars[r].Init? && t.lens == s.lens[l := |layout|]
    requires s.vars[l].Init? ==> s.lens[l] == |layout|
    requires if s.vars[l].Init? then t.layouts == s.layouts && t.tys == s.tys
             else t.layouts == s.layouts[l := layout] && t.tys == s.tys[l := ty]
    ensures FieldShaped(s, t, l, r, layout, ty)
  {
  }

  /** What a field assignment that goes ahead does to the solutions. */
  ghost predicate BitPassedOn(s: Flow, t: Flow, l: nat, width: nat, fl: nat, r: nat, fr: nat, copy: bool, argCount: nat)
    requires l < |s.vars| == |t.vars| && r < |s.vars|
  {
    && s.vars[r].Init? && t.vars[l].Init? && t.vars[r].Init?
    && NeedsBit(s, t, l, fl, argCount) && (copy ==> FieldEitherWay(s, t, l, width, fl, r, fr, argCount))
    && (forall m :: Solves(m, t.widths, t.constraints) ==>
          FieldPassed(Before(m, s.vars[l], width), Eval(m, Var(s.vars[r].id)),
                      Eval(m, Var(t.vars[l].id)), Eval(m, Var(t.vars[r].id)), fl, fr, copy))
  }

  lemma FieldFollows(s: Flow, t: Flow, argCount: nat, op: Op)
    requires Shaped(s) && Shaped(t) && op.FieldToField? && InRange(op, |s.vars|) && Elsewhere(s, t, op.l, op.r)
    requires FieldProceeds(LocalAt(s, op.l), LocalAt(s, op.r), op.fl, op.fr, op.required, op.layout)
    requires !FieldAbandons(LocalAt(s, op.l), LocalAt(s, op.r), op.fl, op.fr) && Grown(s, t)
    requires BitPassedOn(s, t, op.l, |op.layout|, op.fl.value, op.r, op.fr.value, op.copy, argCount)
    ensures Follows(s, t, argCount, op)
  {
    var l, fl, r, fr := op.l, op.fl.value, op.r, op.fr.value;
    forall m | Exact(m, t) ensures Reached(m, s, t, argCount, op) {
      BitUnset(m, s, t, l, fl, argCount);
      OwnElsewhere(m, s, t, l, r);
      assert Own(m, s)[r] == OwnOf(m, s.vars[r]) && Own(m, s)[l] == OwnOf(m, s.vars[l]);
      assert Own(m, s) == Own(m, s)[r := OwnOf(m, s.vars[r])];
      assert FieldBase(ShapeOf(s)[l], Own(m, s)[l], op.layout) == Before(m, s.vars[l], |op.layout|);
      assert FieldPassed(Before(m, s.vars[l], |op.layout|), OwnOf(m, s.vars[r]), OwnOf(m, t.vars[l]),
                         OwnOf(m, t.vars[r]), fl, fr, op.copy);
    }
  }

  lemma BitUnset(m: Model, s: Flow, t: Flow, l: nat, fl: nat, argCount: nat)
    requires Shaped(s) && l < |s.vars| && Grown(s, t) && NeedsBit(s, t, l, fl, argCount) && Exact(m, t)
    ensures l > argCount ==> !BitAt(OwnOf(m, s.vars[l]), fl)
  {
    Restrict(m, s, t);
    assert m[..|s.widths|] <= m;
    assert Continues(m[..|s.widths|], t);
  }

  lemma FieldRealises(s: Flow, t: Flow, argCount: nat, op: Op)
    requires Shaped(s) && Shaped(t) && op.FieldToField? && InRange(op, |s.vars|) && Elsewhere(s, t, op.l, op.r)
    requires FieldProceeds(LocalAt(s, op.l), LocalAt(s, op.r), op.fl, op.fr, op.required, op.layout)
    requires !FieldAbandons(LocalAt(s, op.l), LocalAt(s, op.r), op.fl, op.fr) && Follows(s, t, argCount, op)
    requires BitPassedOn(s, t, op.l, |op.layout|, op.fl.value, op.r, op.fr.value, op.copy, argCount)
    ensures Realises(s, t, argCount, op)
  {
    var l, fl, r, fr := op.l, op.fl.value, op.r, op.fr.value;
    forall m | Exact(m, s) && Allows(ShapeOf(s), Own(m, s), argCount, op)
      ensures !(l > argCount && BitSet(m, s.vars[l], fl))
    {
      assert Own(m, s)[l] == OwnOf(m, s.vars[l]);
    }
    if !op.copy {
      OnlyOutcome(s, t, argCount, op);
    } else {
      forall m, stays: bool | Exact(m, s) && Allows(ShapeOf(s), Own(m, s), argCount, op)
        ensures ContinuesAs(m, t, Outcome(ShapeOf(s), Own(m, s), op, stays))
      {
        var b, c := Before(m, s.vars[l], |op.layout|), OwnOf(m, s.vars[r]);
        assert FieldContinues(m, t, l, b, fl, r, c, fr);
        assert Own(m, s)[r] == c && FieldBase(ShapeOf(s)[l], Own(m, s)[l], op.layout) == b;
        if stays {
          assert Own(m, s)[l := b[fl := false]] == Own(m, s)[l := b[fl := false]][r := c];
          ContinuesAsPair(m, s, t, l, b[fl := false], r, c);
        } else {
          ContinuesAsPair(m, s, t, l, b[fl := c[fr]], r, c[fr := false]);
        }
      }
    }
  }

  /** What a field assignment does in each of its three cases. */
  ghost predicate AssignedField(s: Flow, t: Flow, argCount: nat, op: Op)
    requires Shaped(s) && InRange(op, |s.vars|) && op.FieldToField? && |t.vars| == |s.vars|
  {
    var x, y := LocalAt(s, op.l), LocalAt(s, op.r);
    if FieldAbandons(x, y, op.fl, op.fr) then GaveUpBoth(s, t, op.l, op.r)
    else if FieldProceeds(x, y, op.fl, op.fr, op.required, op.layout)
    then BitPassedOn(s, t, op.l, |op.layout|, op.fl.value, op.r, op.fr.value, op.copy, argCount)
         && (op.l > argCount || x.status != Live ==> t.lost == s.lost)
    else t == s.(lens := t.lens)
  }

  lemma FieldSimulates(s: Flow, t: Flow, argCount: nat, op: Op)
    requires Shaped(s) && Shaped(t) && op.FieldToField? && InRange(op, |s.vars|)
    requires Elsewhere(s, t, op.l, op.r) && Grown(s, t) && AssignedField(s, t, argCount, op)
    ensures Follows(s, t, argCount, op) && Realises(s, t, argCount, op)
  {
    var x, y := LocalAt(s, op.l), LocalAt(s, op.r);
    if FieldAbandons(x, y, op.fl, op.fr) {
      GivingUpFollows(s, t, argCount, op, op.l, op.r);
    } else if FieldProceeds(x, y, op.fl, op.fr, op.required, op.layout) {
      FieldFollows(s, t, argCount, op);
      FieldRealises(s, t, argCount, op);
    } else {
      NothingHappens(s, t, argCount, op);
    }
  }

  lemma FieldStepped(s: Flow, t: Flow, argCount: nat, op: Op)
    requires Shaped(s) && Shaped(t) && op.FieldToField? && InRange(op, |s.vars|)
    requires Elsewhere(s, t, op.l, op.r) && Grown(s, t) && t.created == s.created && AssignedField(s, t, argCount, op)
    requires AssignField(LocalAt(s, op.l), LocalAt(s, op.r), op.fl, op.fr, op.required, op.layout, op.ty, op.copy)
             == Some((LocalAt(t, op.l), LocalAt(t, op.r)))
    ensures Stepped(s, t, argCount, op)
  {
    FieldSimulates(s, t, argCount, op);
    ShapeUpdate(s, t, op.l, op.r);
  }

  // ---------------------------------------------------------------- one local

  /** An operation on one local whose outcome its old vector determines. */
  lemma OneLocalFollows(s: Flow, t: Flow, argCount: nat, op: Op, u: nat)
    requires Shaped(s) && InRange(op, |s.vars|) && u < |s.vars| && Elsewhere(s, t, u, u) && Settles(ShapeOf(s), op)
    requires forall m :: Exact(m, t) ==>
               (Allows(ShapeOf(s), Own(m, s), argCount, op)
                && Outcome(ShapeOf(s), Own(m, s), op, false) == Own(m, s)[u := OwnOf(m, t.vars[u])])
    requires forall m :: Exact(m, s) && Allows(ShapeOf(s), Own(m, s), argCount, op) ==> Continues(m, t)
    ensures Follows(s, t, argCount, op) && Realises(s, t, argCount, op)
  {
    forall m | Exact(m, t) ensures Reached(m, s, t, argCount, op) {
      OwnElsewhere(m, s, t, u, u);
    }
    OnlyOutcome(s, t, argCount, op);
  }

  /** What a drop of a followed local does to the solutions. */
  ghost predicate DroppedFrom(s: Flow, t: Flow, u: nat, target: Target, recovery: bool)
    requires Shaped(s) && u < |s.vars| == |t.vars|
  {
    if target == Deeper then !t.vars[u].Init?
    else if Affects(ReverseBits(s.layouts[u]), target)
    then s.vars[u].Init? && t.vars[u].Init? && forall m :: Solves(m, t.widths, t.constraints) ==>
           Dropped(Eval(m, Var(s.vars[u].id)), Eval(m, Var(t.vars[u].id)), ReverseBits(s.layouts[u]), target, recovery)
    else t == s
  }

  lemma DropStepped(s: Flow, t: Flow, argCount: nat, op: Op)
    requires Shaped(s) && Shaped(t) && op.Drop? && InRange(op, |s.vars|)
    requires Elsewhere(s, t, op.u, op.u) && Grown(s, t) && Free(s, t) && t.created == s.created
    requires AfterDrop(LocalAt(s, op.u), op.target, op.recovery) == Some(LocalAt(t, op.u))
    requires op.target != Deeper || !s.vars[op.u].Init? || s.lens[op.u] == 0 ==> t.lost == s.lost
    requires if s.vars[op.u].Init? && s.lens[op.u] != 0 then DroppedFrom(s, t, op.u, op.target, op.recovery) else t == s
    ensures Stepped(s, t, argCount, op)
  {
    ShapeUpdateOne(s, t, op.u);
    if s.vars[op.u].Init? && s.lens[op.u] != 0 {
      forall m | Exact(m, t)
        ensures Outcome(ShapeOf(s), Own(m, s), op, false) == Own(m, s)[op.u := OwnOf(m, t.vars[op.u])]
      {
        DropOutcome(m, s, t, op);
      }
      OneLocalFollows(s, t, argCount, op, op.u);
    } else {
      NothingHappens(s, t, argCount, op);
    }
  }

  lemma DropOutcome(m: Model, s: Flow, t: Flow, op: Op)
    requires Shaped(s) && Shaped(t) && op.Drop? && InRange(op, |s.vars|) && |t.vars| == |s.vars| && Exact(m, t)
    requires s.vars[op.u].Init? && s.lens[op.u] != 0 && DroppedFrom(s, t, op.u, op.target, op.recovery)
    ensures Outcome(ShapeOf(s), Own(m, s), op, false) == Own(m, s)[op.u := OwnOf(m, t.vars[op.u])]
  {
    var b, b', kept := OwnOf(m, s.vars[op.u]), OwnOf(m, t.vars[op.u]), ReverseBits(s.layouts[op.u]);
    assert Own(m, s)[op.u] == b;
    if op.target != Deeper {
      assert b' == DropBits(b, kept, op.target, op.recovery);
    }
  }

  /** What a call does to the solutions. */
  ghost predicate ResultStored(s: Flow, t: Flow, l: nat, layout: seq<Owner>, pointers: Option<Bits>)
    requires l < |s.vars| == |t.vars| && Joinable(LayoutBits(layout), pointers)
  {
    NeedsEmpty(s, t, l) && forall m :: Solves(m, t.widths, t.constraints) ==>
      Held(m, s.vars[l]) == 0 && OwnOf(m, t.vars[l]) == ResultBits(layout, pointers)
  }

  lemma CallStepped(s: Flow, t: Flow, argCount: nat, op: Op)
    requires Shaped(s) && Shaped(t) && op.Call? && InRange(op, |s.vars|)
    requires Elsewhere(s, t, op.l, op.l) && Grown(s, t) && t.lost == s.lost
    requires t.created == s.created + Made(ShapeOf(s), op)
    requires TakeResult(LocalAt(s, op.l), op.required, op.layout, op.pointers, op.priority, op.ty)
             == Some(LocalAt(t, op.l))
    requires if ResultTaken(LocalAt(s, op.l), op.required, op.layout, op.priority)
             then Joinable(LayoutBits(op.layout), op.pointers) && ResultStored(s, t, op.l, op.layout, op.pointers)
             else t.widths == s.widths && t.constraints == s.constraints
                  && (t.vars[op.l] == s.vars[op.l] || (!t.vars[op.l].Init? && !s.vars[op.l].Init?))
    ensures Stepped(s, t, argCount, op)
  {
    ShapeUpdateOne(s, t, op.l);
    if ResultTaken(LocalAt(s, op.l), op.required, op.layout, op.priority) {
      forall m | Exact(m, t) || Exact(m, s) ensures Empty(Own(m, s)[op.l]) <==> Held(m, s.vars[op.l]) == 0 {
        EmptyHoldsNothing(OwnOf(m, s.vars[op.l]));
      }
      OneLocalFollows(s, t, argCount, op, op.l);
    } else {
      NothingHappens(s, t, argCount, op);
    }
  }

  lemma PassStepped(s: Flow, t: Flow, argCount: nat, op: Op)
    requires Shaped(s) && Shaped(t) && op.Pass? && InRange(op, |s.vars|) && Elsewhere(s, t, op.a, op.a) && Grown(s, t)
    requires t.lost == s.lost && t.created == s.created && LocalAt(t, op.a) == LocalAt(s, op.a)
    requires if s.vars[op.a].Init? && s.lens[op.a] != 0
             then NeedsEmpty(s, t, op.a) && forall m :: Solves(m, t.widths, t.constraints) ==>
                    Held(m, s.vars[op.a]) == 0 == Held(m, t.vars[op.a])
             else t == s
    ensures Stepped(s, t, argCount, op)
  {
    ShapeUpdateOne(s, t, op.a);
    assert ShapeOf(t) == ShapeOf(s);
    if s.vars[op.a].Init? && s.lens[op.a] != 0 {
      forall m | Exact(m, t) || Exact(m, s)
        ensures Own(m, s)[op.a] == OwnOf(m, s.vars[op.a])
        ensures Empty(OwnOf(m, s.vars[op.a])) <==> Held(m, s.vars[op.a]) == 0
      {
        EmptyHoldsNothing(OwnOf(m, s.vars[op.a]));
      }
      forall m | Exact(m, t) ensures OwnOf(m, t.vars[op.a]) == OwnOf(m, s.vars[op.a]) {
        SolvesLess(m, s, t);
        EmptyHoldsNothing(OwnOf(m, s.vars[op.a]));
        EmptyHoldsNothing(OwnOf(m, t.vars[op.a]));
      }
      OneLocalFollows(s, t, argCount, op, op.a);
    } else {
      NothingHappens(s, t, argCount, op);
    }
  }

  // ---------------------------------------------------------------- runs

  /** Some solution holds bits from which the operations can end clean. */
  ghost predicate CanEndClean(s: Flow, argCount: nat, ops: seq<Op>)
    requires Shaped(s) && AllInRange(ops, |s.vars|)
  {
    exists m :: Exact(m, s) && EndsClean(ShapeOf(s), Own(m, s), argCount, ops)
  }

  lemma StepKeepsClean(s: Flow, t: Flow, argCount: nat, ops: seq<Op>)
    requires ops != [] && Stepped(s, t, argCount, ops[0]) && AllInRange(ops, |s.vars|)
    ensures |t.vars| == |s.vars| && (CanEndClean(s, argCount, ops) <==> CanEndClean(t, argCount, ops[1..]))
  {
    assert |ShapeOf(t)| == |ShapeOf(s)|;
    if CanEndClean(s, argCount, ops) {
      var m :| Exact(m, s) && EndsClean(ShapeOf(s), Own(m, s), argCount, ops);
      CleanGoesOn(m, s, t, argCount, ops);
    }
    if CanEndClean(t, argCount, ops[1..]) {
      var m' :| Exact(m', t) && EndsClean(ShapeOf(t), Own(m', t), argCount, ops[1..]);
      CleanComesFrom(m', s, t, argCount, ops);
    }
  }

  lemma CleanGoesOn(m: Model, s: Flow, t: Flow, argCount: nat, ops: seq<Op>)
    requires ops != [] && Stepped(s, t, argCount, ops[0]) && AllInRange(ops, |s.vars|) && |t.vars| == |s.vars|
    requires Exact(m, s) && EndsClean(ShapeOf(s), Own(m, s), argCount, ops)
    ensures CanEndClean(t, argCount, ops[1..])
  {
    var stays := !EndsClean(ShapeOf(t), Outcome(ShapeOf(s), Own(m, s), ops[0], false), argCount, ops[1..]);
    assert ContinuesAs(m, t, Outcome(ShapeOf(s), Own(m, s), ops[0], stays));
    var m' :| m <= m' && Exact(m', t) && Own(m', t) == Outcome(ShapeOf(s), Own(m, s), ops[0], stays);
  }

  lemma CleanComesFrom(m': Model, s: Flow, t: Flow, argCount: nat, ops: seq<Op>)
    requires ops != [] && Stepped(s, t, argCount, ops[0]) && AllInRange(ops, |s.vars|) && |t.vars| == |s.vars|
    requires Exact(m', t) && EndsClean(ShapeOf(t), Own(m', t), argCount, ops[1..])
    ensures CanEndClean(s, argCount, ops)
  {
    assert Reached(m', s, t, argCount, ops[0]);
    Restrict(m', s, t);
    OwnStable(m'[..|s.widths|], m', s);
    assert EndsClean(ShapeOf(s), Own(m'[..|s.widths|], s), argCount, ops);
  }

  lemma NothingToGo(s: Flow, argCount: nat)
    requires Shaped(s) && argCount < |s.vars|
    ensures CanEndClean(s, argCount, []) <==> CleanlySolvable(s, argCount + 1)
  {
    forall m ensures NothingLeft(Own(m, s), argCount) <==> Clean(m, s.vars, argCount + 1, |s.vars|) {
      forall k | 0 <= k < |s.vars| ensures Empty(Own(m, s)[k]) <==> Held(m, s.vars[k]) == 0 {
        EmptyHoldsNothing(OwnOf(m, s.vars[k]));
      }
      assert forall k :: argCount + 1 <= k < |s.vars| ==> (Empty(Own(m, s)[k]) <==> Held(m, s.vars[k]) == 0);
    }
    assert forall m :: EndsClean(ShapeOf(s), Own(m, s), argCount, []) <==> NothingLeft(Own(m, s), argCount);
  }

  lemma {:induction false} SumIsTotal(m: Model, vars: seq<IntraVar>, h: Holding)
    requires |h| == |vars| && forall i :: 0 <= i < |h| ==> h[i] == OwnOf(m, vars[i])
    ensures Sum(h) == Total(m, vars)
    decreases |h|
  {
    if h != [] {
      SumIsTotal(m, vars[1..], h[1..]);
    }
  }

  /** A run that creates more than its drops can clear, its losses can swallow and the return
      place and arguments can hold cannot end clean. */
  lemma OverdrawnCannotEndClean(s: Flow, argCount: nat, ops: seq<Op>)
    requires Shaped(s) && Balanced(s) && s.drops == [] && s.lost == [] && AllInRange(ops, |s.vars|)
    requires argCount < |s.vars|
    requires Overdraws(s.created, ShapeOf(s), argCount, ops)
    ensures !CanEndClean(s, argCount, ops)
  {
    if CanEndClean(s, argCount, ops) {
      var m :| Exact(m, s) && EndsClean(ShapeOf(s), Own(m, s), argCount, ops);
      OwnFits(m, s);
      SumIsTotal(m, s.vars, Own(m, s));
      CleanWithinMeans(ShapeOf(s), Own(m, s), argCount, ops);
    }
  }

  lemma NoSolution(s: Flow)
    requires ScopedAll(s.constraints, |s.widths|) && !Solvable(s)
    ensures forall m :: !Solves(m, s.widths, s.constraints)
  {
    forall m | Solves(m, s.widths, s.constraints) ensures false {
      var m' := m[..|s.widths|];
      forall i | 0 <= i < |s.constraints| ensures Holds(m', s.constraints[i]) {
        HoldsStable(m', m, s.constraints[i]);
      }
      assert Exact(m', s);
    }
  }

  /** A run from `s` has come to `t` with the operations `rest` to go. */
  ghost predicate Along(s: Flow, t: Flow, argCount: nat, ops: seq<Op>, rest: seq<Op>) {
    && Shaped(s) && Shaped(t) && |t.vars| == |s.vars| && AllInRange(ops, |s.vars|) && AllInRange(rest, |s.vars|)
    && After(ShapeOf(s), ops) == After(ShapeOf(t), rest)
    && s.created + AllMade(ShapeOf(s), ops) == t.created + AllMade(ShapeOf(t), rest)
    && (AllKeep(ShapeOf(s), argCount, ops) ==> AllKeep(ShapeOf(t), argCount, rest) && t.lost == s.lost)
    && (CanEndClean(s, argCount, ops) <==> CanEndClean(t, argCount, rest))
  }

  lemma AlongNext(s: Flow, t: Flow, u: Flow, argCount: nat, ops: seq<Op>, rest: seq<Op>)
    requires Along(s, t, argCount, ops, rest) && rest != [] && Stepped(t, u, argCount, rest[0])
    ensures Along(s, u, argCount, ops, rest[1..])
  {
    StepKeepsClean(t, u, argCount, rest);
  }
}
