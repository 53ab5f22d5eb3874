/** rCanary's ownership flow along a path: handlers that replace symbolic bit vectors by fresh
    ones and assert constraints. */
module Ownership {
  import opened Wrappers
  import opened BitVectors
  import opened Constraints
  import opened Balance
  import opened Shapes
  import opened Holdings
  import opened Steps

  class Analysis {
    const argCount: nat
    var vars: seq<IntraVar>
    var lens: seq<nat>
    var layouts: seq<seq<Owner>>
    var tys: seq<nat>
    var widths: seq<nat>
    var constraints: seq<Formula>
    ghost var created: nat
    ghost var drops: seq<(Term, Term)>
    ghost var lost: seq<Term>

    ghost function Snap(): Flow
      reads this
    {
      Flow(vars, lens, layouts, tys, widths, constraints, created, drops, lost)
    }

    ghost predicate Valid()
      reads this
    {
      argCount < |vars| && Shaped(Snap()) && Balanced(Snap()) && ScopedAll(constraints, |widths|)
    }

    constructor (locals: nat, argCount: nat)
      requires argCount < locals
      ensures Valid() && |vars| == locals && this.argCount == argCount && created == 0 && drops == [] && lost == []
      ensures widths == [] && constraints == []
      ensures forall i :: 0 <= i < locals ==> LocalAt(Snap(), i) == Local(Unset, 0, [], 0)
    {
      this.argCount := argCount;
      vars, lens := seq(locals, i => Declared), seq(locals, i => 0);
      layouts, tys := seq(locals, i => []), seq(locals, i => 0);
      widths, constraints := [], [];
      created, drops, lost := 0, [], [];
      new;
      forall m ensures Total(m, vars) == 0 {
        NothingHeld(m, vars);
      }
    }

    /** `handle_intra_var_unsupported`: whatever the local held is given up. */
    method GiveUp(i: nat)
      requires Valid() && i < |vars|
      modifies this
      ensures Valid() && vars == old(vars)[i := Unsupported] && created == old(created) && drops == old(drops)
      ensures lens == if old(vars)[i] == Unsupported then old(lens) else old(lens)[i := 0]
      ensures constraints == old(constraints) && widths == old(widths) && layouts == old(layouts) && tys == old(tys)
      ensures lost == if old(vars)[i].Init? then old(lost) + [Var(old(vars)[i].id)] else old(lost)
      ensures Elsewhere(old(Snap()), Snap(), i, i) && LocalAt(Snap(), i) == Abandon(old(LocalAt(Snap(), i)))
    {
      ghost var s := Snap();
      if vars[i] == Unsupported {
        assert vars == vars[i := Unsupported];
        return;
      }
      if vars[i].Init? {
        lost := lost + [Var(vars[i].id)];
      }
      vars := vars[i := Unsupported];
      lens := lens[i := 0];
      forall m | Solves(m, widths, constraints)
        ensures created == Cleared(m, drops) + Lost(m, lost) + Total(m, vars)
      {
        TotalUpdate(m, s.vars, i, Unsupported);
        if s.vars[i].Init? {
          LostPush(m, s.lost, Var(s.vars[i].id));
        }
      }
    }

    /** Both sides of an assignment are given up. */
    method GiveUpBoth(l: nat, r: nat)
      requires Valid() && l < |vars| && r < |vars| && l != r
      modifies this
      ensures Elsewhere(old(Snap()), Snap(), l, r)
      ensures Valid() && vars == old(vars)[l := Unsupported][r := Unsupported]
      ensures created == old(created) && drops == old(drops) && widths == old(widths) && constraints == old(constraints)
      ensures layouts == old(layouts) && tys == old(tys)
      ensures LocalAt(Snap(), l) == Abandon(old(LocalAt(Snap(), l)))
      ensures LocalAt(Snap(), r) == Abandon(old(LocalAt(Snap(), r)))
      ensures !old(vars)[l].Init? && !old(vars)[r].Init? ==> lost == old(lost)
    {
      GiveUp(l);
      GiveUp(r);
    }

    /** A local gets a fresh vector with the value of a term; nothing else changes. */
    method Replace(u: nat, width: nat, t: Term, ghost made: nat, ghost dropped: seq<(Term, Term)>)
      requires Valid() && u < |vars| && |dropped| <= 1 && Scoped(t, |widths|)
      requires forall m :: Solves(m, widths, constraints) ==> |Eval(m, t)| == width
      requires forall m :: Solves(m, widths + [width], constraints + [Eq(Var(|widths|), t)]) ==>
                 made + Held(m, vars[u]) == Ones(Eval(m, Var(|widths|))) + Cleared(m, dropped)
      modifies this
      ensures Valid() && vars == old(vars)[u := Init(old(|widths|))] && lens == old(lens)[u := width]
      ensures widths == old(widths) + [width] && constraints == old(constraints) + [Eq(Var(old(|widths|)), t)]
      ensures layouts == old(layouts) && tys == old(tys)
      ensures created == old(created) + made && drops == old(drops) + dropped && lost == old(lost)
      ensures Free(old(Snap()), Snap())
    {
      ghost var s := Snap();
      vars, lens := vars[u := Init(|widths|)], lens[u := width];
      widths, constraints := widths + [width], constraints + [Eq(Var(|widths|), t)];
      created, drops := created + made, drops + dropped;
      ReplaceStep(s, Snap(), u, width, t, made, dropped);
    }

    // ---------------------------------------------------------------- entry

    /** One argument at entry: an owned one starts with the bits of its layout (its `layout`
        entry stays empty), any other is not followed. */
    method InitArg(a: nat, owned: bool, layout: seq<Owner>, ty: nat) returns (ok: bool)
      requires Valid() && 0 < a <= argCount && vars[a] == Declared
      modifies this
      ensures Elsewhere(old(Snap()), Snap(), a, a)
      ensures Valid() && |vars| == |old(vars)| && drops == old(drops) && lost == old(lost)
      ensures ok == (owned ==> |LayoutBits(layout)| <= 63) && |LayoutBits(layout)| <= |layout|
      ensures ok ==> Free(old(Snap()), Snap()) && Grown(old(Snap()), Snap())
      ensures ok && owned ==> created == old(created) + Ones(LayoutBits(layout)) && lens[a] == |layout|
      ensures layouts == old(layouts) && (ok && owned ==> vars[a].Init?)
      ensures ok && owned ==> forall m :: Solves(m, widths, constraints) ==>
                Eval(m, Var(vars[a].id)) == LayoutBits(layout) + Zeros(|layout| - |LayoutBits(layout)|)
      ensures ok && !owned ==> created == old(created) && vars[a] == Unsupported
      ensures ok ==> LocalAt(Snap(), a).(layout := []) == EntryLocal(Argument(owned, layout, ty))
    {
      ghost var s := Snap();
      LayoutAligned(layout);
      if !owned {
        GiveUp(a);
        tys := tys[a := 0];
        StayFree(s, Snap());
        return true;
      }
      var n := RustBvToInt(LayoutBits(layout));
      if n == None {
        return false;
      }
      OwnBits(a, n.value, |layout|, LayoutBits(layout));
      ghost var t := Snap();
      tys := tys[a := ty];
      FreeSame(s, t, Snap());
      ok := true;
    }

    /** The next argument of a signature. */
    method Enter(locals: nat, args: seq<Argument>, k: nat) returns (ok: bool)
      requires |args| < locals && k < |args| == argCount && Valid() && Entered(Snap(), locals, args[..k])
      modifies this
      ensures Valid() && ok == Fits(args[k]) && (ok ==> Entered(Snap(), locals, args[..k + 1]))
    {
      ghost var s := Snap();
      assert LocalAt(s, k + 1) == ShapeOf(s)[k + 1] == Local(Unset, 0, [], 0);
      ok := InitArg(k + 1, args[k].owned, args[k].layout, args[k].ty);
      if ok {
        EnteredNext(s, Snap(), locals, args, k);
      }
    }

    /** A local without ownership takes a vector with the given bits. */
    method OwnBits(u: nat, value: nat, width: nat, ghost bits: Bits)
      requires Valid() && u < |vars| && |bits| <= width && value == Value(bits)
      requires forall m :: Solves(m, widths, constraints) ==> Held(m, vars[u]) == 0
      modifies this
      ensures Valid() && drops == old(drops) && lost == old(lost) && layouts == old(layouts) && tys == old(tys)
      ensures Grown(old(Snap()), Snap()) && Free(old(Snap()), Snap())
      ensures vars == old(vars)[u := Init(old(|widths|))] && lens == old(lens)[u := width]
      ensures created == old(created) + Ones(bits)
      ensures forall m :: Solves(m, widths, constraints) ==> Held(m, vars[u]) == Ones(bits)
      ensures forall m :: Solves(m, widths, constraints) ==> Eval(m, Var(vars[u].id)) == bits + Zeros(width - |bits|)
    {
      var f := Eq(Var(|widths|), Lit(FromU64(value, width)));
      forall m | Solves(m, widths + [width], constraints + [f])
        ensures Eval(m, Var(|widths|)) == bits + Zeros(width - |bits|)
        ensures Held(m, vars[u]) == 0 && Ones(Eval(m, Var(|widths|))) == Ones(bits)
      {
        LastHolds(m, widths + [width], constraints + [f], f);
        ValuePadded(bits, width);
        OnesAppend(bits, Zeros(width - |bits|));
        ZerosHoldNothing(width - |bits|);
        SolvesFewer(m, widths, constraints, widths + [width], constraints + [f]);
      }
      Replace(u, width, Lit(FromU64(value, width)), Ones(bits), []);
    }

    // ---------------------------------------------------------------- whole values

    /** Whether a whole-value assignment goes ahead. */
    ghost predicate Proceeds(l: nat, r: nat, priority: Priority)
      requires Shaped(Snap()) && l < |vars| && r < |vars|
      reads this
    {
      WholeProceeds(LocalAt(Snap(), l), LocalAt(Snap(), r), priority)
    }

    /** Whether a whole-value assignment makes both sides unsupported. */
    ghost predicate GivesUp(l: nat, r: nat, priority: Priority)
      requires Shaped(Snap()) && l < |vars| && r < |vars|
      reads this
    {
      WholeAbandons(LocalAt(Snap(), l), LocalAt(Snap(), r), priority)
    }

    /** The checks shared by `handle_copy` and `handle_move`: an initialised target is
        constrained to hold nothing; the first assignment takes over type and layout. */
    method Prepare(l: nat, r: nat, priority: Priority) returns (go: bool)
      requires Valid() && l < |vars| && r < |vars| && l != r
      modifies this
      ensures Valid() && go == old(Proceeds(l, r, priority)) && |vars| == |old(vars)|
      ensures created == old(created) && drops == old(drops) && widths == old(widths)
      ensures go ==> vars == old(vars) && lens == old(lens) && lost == old(lost)
      ensures go ==> constraints == old(constraints) +
                     (if vars[l].Init? then [Eq(Var(vars[l].id), Lit(Zeros(lens[l])))] else [])
      ensures go && !vars[l].Init? ==>
                tys == old(tys)[l := old(tys)[r]] && layouts == old(layouts)[l := old(layouts)[r]]
      ensures go && vars[l].Init? ==> tys == old(tys) && layouts == old(layouts)
      ensures old(GivesUp(l, r, priority)) ==> vars == old(vars)[l := Unsupported][r := Unsupported]
      ensures old(GivesUp(l, r, priority)) ==>
                constraints == old(constraints) && layouts == old(layouts) && tys == old(tys)
      ensures old(GivesUp(l, r, priority)) ==> GaveUpBoth(old(Snap()), Snap(), l, r)
      ensures !go && !old(GivesUp(l, r, priority)) ==> Snap() == old(Snap())
    {
      if vars[l] == Unsupported || vars[r] == Unsupported {
        GiveUpBoth(l, r);
        return false;
      }
      if !vars[r].Init? || lens[r] == 0 {
        return false;
      }
      if vars[l].Init? {
        if tys[l] != tys[r] {
          GiveUpBoth(l, r);
          return false;
        }
        HoldsNothing(l);
      } else {
        if priority == Unidentified {
          GiveUpBoth(l, r);
          return false;
        }
        if priority == Ignored {
          return false;
        }
        tys := tys[l := tys[r]];
        layouts := layouts[l := layouts[r]];
      }
      go := true;
    }

    /** The constraint that an initialised local owns nothing. */
    method HoldsNothing(u: nat)
      requires Valid() && u < |vars| && vars[u].Init?
      modifies this`constraints
      ensures Valid() && constraints == old(constraints) + [Eq(Var(vars[u].id), Lit(Zeros(lens[u])))]
    {
      ghost var s := Snap();
      constraints := constraints + [Eq(Var(vars[u].id), Lit(Zeros(lens[u])))];
      MoreConstraints(s, Snap());
    }

    /** The fresh vectors of a whole-value assignment; `s0` is the state before the target was
        constrained to be empty. */
    method PassWhole(ghost s0: Flow, l: nat, r: nat, copy: bool)
      requires Valid() && l < |vars| && r < |vars| && l != r && vars[r].Init?
      requires Shaped(s0) && Grown(s0, Snap()) && s0.vars == vars && s0.lens == lens && s0.widths == widths
      requires constraints == s0.constraints
                              + (if vars[l].Init? then [Eq(Var(vars[l].id), Lit(Zeros(lens[l])))] else [])
      modifies this
      ensures Valid() && created == old(created) && drops == old(drops) && lost == old(lost)
      ensures |vars| == |old(vars)| && vars == old(vars)[l := vars[l]][r := vars[r]] && vars[l].Init? && vars[r].Init?
      ensures lens == old(lens)[l := old(lens)[r]] && layouts == old(layouts) && tys == old(tys)
      ensures Grown(old(Snap()), Snap()) && NeedsEmpty(s0, Snap(), l) && (copy ==> CopiesEitherWay(s0, Snap(), l, r))
      ensures forall m :: Solves(m, widths, constraints) ==>
                OneSideOwns(m, old(vars)[l], old(vars)[r], vars[l], vars[r])
                && (copy || Eval(m, Var(vars[l].id)) == Eval(m, Var(old(vars)[r].id)))
    {
      ghost var s := Snap();
      var old', width := vars[r].id, lens[r];
      var l', r' := |widths|, |widths| + 1;
      widths := widths + [width, width];
      constraints := constraints + PassedFormulas(old', l', r', width, copy);
      vars := vars[l := Init(l')][r := Init(r')];
      lens := lens[l := width];
      PassedStep(s0, s, Snap(), l, r, copy);
    }

    /** `handle_copy`: afterwards one side owns what the source owned, and either side can. */
    method HandleCopy(l: nat, r: nat, priority: Priority)
      requires Valid() && l < |vars| && r < |vars| && l != r
      modifies this
      ensures Elsewhere(old(Snap()), Snap(), l, r)
      ensures Valid() && created == old(created) && drops == old(drops) && |vars| == |old(vars)|
      ensures old(Proceeds(l, r, priority)) ==> lost == old(lost) && NeedsEmpty(old(Snap()), Snap(), l)
      ensures old(Proceeds(l, r, priority)) ==>
                forall m :: Solves(m, widths, constraints) ==>
                  OneSideOwns(m, old(vars)[l], old(vars)[r], vars[l], vars[r])
      ensures old(Proceeds(l, r, priority)) ==> CopiesEitherWay(old(Snap()), Snap(), l, r)
      ensures old(GivesUp(l, r, priority)) ==> GaveUpBoth(old(Snap()), Snap(), l, r)
      ensures (LocalAt(Snap(), l), LocalAt(Snap(), r))
              == AssignWhole(old(LocalAt(Snap(), l)), old(LocalAt(Snap(), r)), priority)
      ensures Grown(old(Snap()), Snap())
      ensures !old(GivesUp(l, r, priority)) && !old(Proceeds(l, r, priority)) ==> Snap() == old(Snap())
    {
      ghost var s0 := Snap();
      var go := Prepare(l, r, priority);
      if !go {
        return;
      }
      PassWhole(s0, l, r, true);
    }

    /** `handle_move`: the target owns what the source owned. */
    method HandleMove(l: nat, r: nat, priority: Priority)
      requires Valid() && l < |vars| && r < |vars| && l != r
      modifies this
      ensures Elsewhere(old(Snap()), Snap(), l, r)
      ensures Valid() && created == old(created) && drops == old(drops) && |vars| == |old(vars)|
      ensures old(Proceeds(l, r, priority)) ==> lost == old(lost) && NeedsEmpty(old(Snap()), Snap(), l)
      ensures old(Proceeds(l, r, priority)) ==>
                forall m :: Solves(m, widths, constraints) ==>
                  OneSideOwns(m, old(vars)[l], old(vars)[r], vars[l], vars[r])
                  && Eval(m, Var(vars[l].id)) == Eval(m, Var(old(vars)[r].id))
      ensures old(GivesUp(l, r, priority)) ==> GaveUpBoth(old(Snap()), Snap(), l, r)
      ensures (LocalAt(Snap(), l), LocalAt(Snap(), r))
              == AssignWhole(old(LocalAt(Snap(), l)), old(LocalAt(Snap(), r)), priority)
      ensures Grown(old(Snap()), Snap())
      ensures !old(GivesUp(l, r, priority)) && !old(Proceeds(l, r, priority)) ==> Snap() == old(Snap())
    {
      ghost var s0 := Snap();
      var go := Prepare(l, r, priority);
      if !go {
        return;
      }
      PassWhole(s0, l, r, false);
    }

    // ---------------------------------------------------------------- fields

    /** Whether a field-to-field assignment gets past its early exits. */
    ghost predicate PassesField(l: nat, fl: Option<nat>, r: nat, fr: Option<nat>, required: bool, layout: seq<Owner>)
      requires Shaped(Snap()) && l < |vars| && r < |vars|
      reads this
    {
      FieldProceeds(LocalAt(Snap(), l), LocalAt(Snap(), r), fl, fr, required, layout)
    }

    /** Whether a field-to-field assignment makes both sides unsupported. */
    ghost predicate GivesUpField(l: nat, fl: Option<nat>, r: nat, fr: Option<nat>)
      requires Shaped(Snap()) && l < |vars| && r < |vars|
      reads this
    {
      FieldAbandons(LocalAt(Snap(), l), LocalAt(Snap(), r), fl, fr)
    }

    /** `handle_copy_field_to_field` and `handle_move_field_to_field` between single fields
        (`None` is a deeper projection): one bit of the target is overwritten by one bit of the
        source, which a move clears and a copy clears or keeps. `ok` is false where the source
        panics: an index or a vector length that does not fit the layout, or the overflow. */
    method HandleFieldToField(l: nat, fl: Option<nat>, r: nat, fr: Option<nat>, required: bool, layout: seq<Owner>,
                              ty: nat, copy: bool) returns (ok: bool)
      requires Valid() && l < |vars| && r < |vars| && l != r
      modifies this
      ensures Elsewhere(old(Snap()), Snap(), l, r)
      ensures Valid() && created == old(created) && drops == old(drops) && |vars| == |old(vars)|
      ensures ok && old(PassesField(l, fl, r, fr, required, layout)) ==>
                forall m :: Solves(m, widths, constraints) ==>
                  vars[l].Init? && vars[r].Init?
                  && FieldPassed(Before(m, old(vars)[l], |layout|), Eval(m, Var(old(vars)[r].id)),
                                 Eval(m, Var(vars[l].id)), Eval(m, Var(vars[r].id)), fl.value, fr.value, copy)
      ensures ok && old(PassesField(l, fl, r, fr, required, layout)) && (l > argCount || !old(vars)[l].Init?) ==>
                lost == old(lost)
      ensures ok && old(PassesField(l, fl, r, fr, required, layout)) ==>
                NeedsBit(old(Snap()), Snap(), l, fl.value, argCount)
      ensures old(GivesUpField(l, fl, r, fr)) ==> ok && GaveUpBoth(old(Snap()), Snap(), l, r)
      ensures !old(GivesUpField(l, fl, r, fr)) && !old(PassesField(l, fl, r, fr, required, layout)) ==>
                Snap() == old(Snap()).(lens := lens)
      ensures var after := AssignField(old(LocalAt(Snap(), l)), old(LocalAt(Snap(), r)),
                                       fl, fr, required, layout, ty, copy);
              ok == after.Some? && (ok ==> (LocalAt(Snap(), l), LocalAt(Snap(), r)) == after.value)
      ensures Grown(old(Snap()), Snap())
      ensures ok && copy && old(PassesField(l, fl, r, fr, required, layout)) ==>
                FieldEitherWay(old(Snap()), Snap(), l, |layout|, fl.value, r, fr.value, argCount)
    {
      if vars[l] == Unsupported || vars[r] == Unsupported {
        GiveUpBoth(l, r);
        return true;
      }
      if !vars[r].Init? {
        return true;
      }
      if fr == None || fl == None {
        GiveUpBoth(l, r);
        return true;
      }
      if !required || layout == [] {
        return true;
      }
      if lens[r] != 0 {
        ok := FieldAssign(l, fl.value, r, fr.value, layout, ty, copy);
      } else {
        ok := vars[l].Init? ==> lens[l] == |layout|;
        if ok {
          lens := lens[l := |layout|];
        }
      }
    }

    /** A field assignment past its early exits. */
    method FieldAssign(l: nat, fl: nat, r: nat, fr: nat, layout: seq<Owner>, ty: nat, copy: bool) returns (ok: bool)
      requires Valid() && l < |vars| && r < |vars| && l != r && vars[l] != Unsupported && vars[r].Init?
      modifies this
      ensures Elsewhere(old(Snap()), Snap(), l, r)
      ensures Valid() && created == old(created) && drops == old(drops) && |vars| == |old(vars)|
      ensures ok == FieldFits(old(LocalAt(Snap(), l)), old(LocalAt(Snap(), r)), fl, fr, layout, copy)
      ensures ok ==> vars[l].Init? && vars[r].Init? && FieldShaped(old(Snap()), Snap(), l, r, layout, ty)
      ensures Grown(old(Snap()), Snap())
      ensures ok && copy ==> FieldEitherWay(old(Snap()), Snap(), l, |layout|, fl, r, fr, argCount)
      ensures ok ==> forall m :: Solves(m, widths, constraints) ==>
                FieldPassed(Before(m, old(vars)[l], |layout|), Eval(m, Var(old(vars)[r].id)),
                            Eval(m, Var(vars[l].id)), Eval(m, Var(vars[r].id)), fl, fr, copy)
      ensures ok && (l > argCount || !old(vars)[l].Init?) ==> lost == old(lost)
      ensures ok ==> NeedsBit(old(Snap()), Snap(), l, fl, argCount)
    {
      if (vars[l].Init? && lens[l] != |layout|) || fl >= |layout| || fr >= lens[r] {
        return false;
      }
      var clearR := ClearMask(lens[r], fr);
      var clearL := ClearMask(|layout|, fl);
      if clearR == None || (copy && clearL == None) {
        return false;
      }
      CommitField(l, fl, r, fr, layout, ty, copy, clearR.value, if clearL.Some? then clearL.value else []);
      ok := true;
    }

    /** The field assignment once the masks are known. */
    method CommitField(l: nat, fl: nat, r: nat, fr: nat, layout: seq<Owner>, ty: nat, copy: bool, clearR: Bits,
                       clearL: Bits)
      requires Valid() && l < |vars| && r < |vars| && l != r && vars[l] != Unsupported && vars[r].Init?
      requires fl < |layout| && fr < lens[r] && (vars[l].Init? ==> lens[l] == |layout|)
      requires ClearsBit(clearR, lens[r], fr) && (copy ==> ClearsBit(clearL, |layout|, fl))
      modifies this
      ensures Elsewhere(old(Snap()), Snap(), l, r)
      ensures Valid() && created == old(created) && drops == old(drops) && vars[l].Init? && vars[r].Init?
      ensures forall m :: Solves(m, widths, constraints) ==>
                FieldPassed(Before(m, old(vars)[l], |layout|), Eval(m, Var(old(vars)[r].id)),
                            Eval(m, Var(vars[l].id)), Eval(m, Var(vars[r].id)), fl, fr, copy)
      ensures l > argCount || !old(vars)[l].Init? ==> lost == old(lost)
      ensures NeedsBit(old(Snap()), Snap(), l, fl, argCount)
      ensures FieldShaped(old(Snap()), Snap(), l, r, layout, ty)
      ensures Grown(old(Snap()), Snap())
      ensures copy ==> FieldEitherWay(old(Snap()), Snap(), l, |layout|, fl, r, fr, argCount)
    {
      ghost var s0 := Snap();
      lens := lens[l := |layout|];
      ghost var s := Snap();
      var lOri := PrepareField(l, fl, layout, ty);
      ghost var mid := Snap();
      PassField(s, l, lOri, fl, r, fr, clearR, clearL, copy);
      FieldShapes(s0, Snap(), l, r, layout, ty);
      NeedsBitThen(s0, s, mid, Snap(), l, fl, argCount);
      if copy {
        EitherWayThen(s0, s, mid, Snap(), l, |layout|, fl, r, fr, argCount);
      }
    }

    /** The target before a field assignment: an initialised local keeps its vector and its
        field is constrained to own nothing unless it is the return place or an argument; otherwise
        it starts empty. */
    method PrepareField(l: nat, fl: nat, layout: seq<Owner>, ty: nat) returns (lOri: Term)
      requires Valid() && l < |vars| && fl < |layout| == lens[l] && vars[l] != Unsupported
      modifies this
      ensures Elsewhere(old(Snap()), Snap(), l, l)
      ensures Shaped(Snap()) && vars == old(vars) && lens == old(lens)
      ensures created == old(created) && drops == old(drops)
      ensures old(widths) <= widths && old(constraints) <= constraints
      ensures forall m :: Solves(m, widths, constraints) ==> Ready(m, vars[l], |layout|, fl, lOri, old(lost), lost)
      ensures l > argCount || !vars[l].Init? ==> lost == old(lost)
      ensures ScopedAll(constraints, |widths|) && Scoped(lOri, |widths|)
      ensures NeedsBit(old(Snap()), Snap(), l, fl, argCount)
      ensures if vars[l].Init? then layouts == old(layouts) && tys == old(tys)
              else layouts == old(layouts)[l := layout] && tys == old(tys)[l := ty]
    {
      ghost var s := Snap();
      ghost var old' := lost;
      if vars[l].Init? {
        lOri := Var(vars[l].id);
        var bit := ExtractT(lOri, fl, fl);
        if l > argCount {
          assert Scoped(bit.t, |widths|);
          ScopedEq(bit, Lit([false]), |widths|);
          constraints := constraints + [Eq(bit, Lit([false]))];
        } else {
          lost := lost + [bit];
        }
        forall m | Solves(m, widths, constraints)
          ensures Lost(m, lost) == Lost(m, old') + (if Eval(m, lOri)[fl] then 1 else 0)
        {
          assert Eval(m, bit) == [Eval(m, lOri)[fl]];
          if l > argCount {
            LastHolds(m, widths, constraints, Eq(bit, Lit([false])));
          } else {
            LostPush(m, old', bit);
          }
        }
        BitOnly(s, Snap(), l, fl, argCount);
      } else {
        var ctor := |widths|;
        widths := widths + [|layout|];
        lOri := Lit(Zeros(|layout|));
        ScopedAllMore(constraints, ctor, [Eq(Var(ctor), lOri)], |widths|);
        constraints := constraints + [Eq(Var(ctor), lOri)];
        tys := tys[l := ty];
        layouts := layouts[l := layout];
        DefinitionFree(s, Snap(), lOri);
      }
    }

    /** The fresh vectors of a field assignment and their constraints. */
    method PassField(ghost s: Flow, l: nat, lOri: Term, fl: nat, r: nat, fr: nat, clearR: Bits, clearL: Bits,
                     copy: bool)
      requires argCount < |vars| && Shaped(Snap()) && Shaped(s) && Balanced(s)
      requires s.vars == vars && s.widths <= widths && s.constraints <= constraints
      requires s.created == created && s.drops == drops
      requires l < |vars| && r < |vars| && l != r && vars[r].Init? && fl < lens[l] && fr < lens[r]
      requires ClearsBit(clearR, lens[r], fr) && (copy ==> ClearsBit(clearL, lens[l], fl))
      requires ScopedAll(constraints, |widths|) && Scoped(lOri, |widths|)
      requires forall m :: Solves(m, widths, constraints) ==> Ready(m, vars[l], lens[l], fl, lOri, s.lost, lost)
      modifies this
      ensures Elsewhere(old(Snap()), Snap(), l, r)
      ensures Valid() && created == old(created) && drops == old(drops) && lost == old(lost)
      ensures |vars| == |old(vars)| && vars[l].Init? && vars[r].Init?
      ensures Free(old(Snap()), Snap()) && Grown(old(Snap()), Snap())
      ensures copy ==> BitEitherWay(old(Snap()), Snap(), l, old(lens)[l], fl, r, fr)
      ensures forall m :: Solves(m, widths, constraints) ==>
                FieldPassed(Before(m, old(vars)[l], old(lens)[l]), Eval(m, Var(old(vars)[r].id)),
                            Eval(m, Var(vars[l].id)), Eval(m, Var(vars[r].id)), fl, fr, copy)
      ensures lens == old(lens) && layouts == old(layouts) && tys == old(tys)
    {
      ghost var mid := Snap();
      var old', l', r' := vars[r].id, |widths|, |widths| + 1;
      var taken := SpliceTerm(lOri, lens[l], fl, ExtractT(Var(old'), fr, fr));
      assert Scoped(Var(old'), |widths|) && Scoped(ExtractT(Var(old'), fr, fr), |widths|);
      FieldScoped(constraints, lOri, old', l', taken, clearR, clearL, copy);
      widths := widths + [lens[l], lens[r]];
      constraints := constraints + FieldFormulas(lOri, old', l', r', taken, clearR, clearL, copy);
      vars := vars[l := Init(l')][r := Init(r')];
      FieldStep(s, mid, Snap(), l, lOri, fl, r, fr, taken, clearR, clearL, copy);
    }

    // ---------------------------------------------------------------- calls and drops

    /** Whether the result of a call is tracked. */
    ghost predicate Takes(l: nat, required: bool, layout: seq<Owner>, priority: Priority)
      requires Shaped(Snap()) && l < |vars|
      reads this
    {
      ResultTaken(LocalAt(Snap(), l), required, layout, priority)
    }

    /** The result of a call stored in a whole local: it owns the bits of its layout, joined
        with the pointer bits when the callee takes ownership and returns a pointer. `ok` is
        false where the source panics. */
    method CallResult(l: nat, required: bool, layout: seq<Owner>, pointers: Option<Bits>, priority: Priority, ty: nat)
      returns (ok: bool)
      requires Valid() && l < |vars|
      modifies this
      ensures Elsewhere(old(Snap()), Snap(), l, l)
      ensures Valid() && drops == old(drops) && |vars| == |old(vars)|
      ensures !ok || !old(Takes(l, required, layout, priority)) ==> created == old(created)
      ensures ok && old(Takes(l, required, layout, priority)) ==>
                (vars[l].Init? && Joinable(LayoutBits(layout), pointers)
                 && created == old(created) + Ones(Joined(LayoutBits(layout), pointers))
                 && ResultStored(old(Snap()), Snap(), l, layout, pointers))
      ensures !old(Takes(l, required, layout, priority)) ==>
                (widths == old(widths) && constraints == old(constraints)
                 && (vars[l] == old(vars)[l] || (!vars[l].Init? && !old(vars)[l].Init?)))
      ensures var after := TakeResult(old(LocalAt(Snap(), l)), required, layout, pointers, priority, ty);
              ok == after.Some? && (ok ==> LocalAt(Snap(), l) == after.value)
      ensures Grown(old(Snap()), Snap()) && lost == old(lost)
    {
      if vars[l] == Unsupported || layout == [] || !required {
        return true;
      }
      if pointers.Some? && |pointers.value| != |LayoutBits(layout)| {
        return false;
      }
      var bits := Joined(LayoutBits(layout), pointers);
      var n := RustBvToInt(bits);
      if n == None {
        return false;
      }
      assert Joinable(LayoutBits(layout), pointers);
      if !vars[l].Init? && priority == Unidentified {
        GiveUp(l);
        return true;
      }
      if !vars[l].Init? && priority == Ignored {
        return true;
      }
      LayoutAligned(layout);
      Receive(l, n.value, layout, ty, bits, pointers);
      ok := true;
    }

    /** An initialised local must be empty, a new one takes type and layout; then it owns the
        given bits. */
    method Receive(l: nat, value: nat, layout: seq<Owner>, ty: nat, ghost bits: Bits, ghost pointers: Option<Bits>)
      requires Valid() && l < |vars| && vars[l] != Unsupported && |bits| <= |layout| && value == Value(bits)
      requires Joinable(LayoutBits(layout), pointers) && bits == Joined(LayoutBits(layout), pointers)
      modifies this
      ensures Elsewhere(old(Snap()), Snap(), l, l)
      ensures Valid() && drops == old(drops) && lost == old(lost) && |vars| == |old(vars)|
      ensures vars[l].Init? && lens[l] == |layout| && created == old(created) + Ones(bits)
      ensures ResultStored(old(Snap()), Snap(), l, layout, pointers)
      ensures if old(vars)[l].Init? then layouts == old(layouts) && tys == old(tys)
              else layouts == old(layouts)[l := layout] && tys == old(tys)[l := ty]
      ensures Grown(old(Snap()), Snap())
    {
      ghost var s0 := Snap();
      if vars[l].Init? {
        HoldsNothing(l);
      } else {
        tys := tys[l := ty];
        layouts := layouts[l := layout];
      }
      ghost var s := Snap();
      EmptyOnly(s0, s, l);
      forall m | Solves(m, widths, constraints) ensures Held(m, vars[l]) == 0 {
        TargetEmpty(m, s, s, l);
      }
      OwnBits(l, value, |layout|, bits);
      forall m | Solves(m, widths, constraints) ensures Held(m, s.vars[l]) == 0 {
        SolvesLess(m, s, Snap());
      }
      ThenFree(s0, s, Snap());
    }

    /** `handle_drop`, of a whole local or one field, and the recovery of a pointer: a fresh
        vector keeps the bits that are not released. `ok` is false where the source panics. */
    method HandleDrop(u: nat, target: Target, recovery: bool) returns (ok: bool)
      requires Valid() && u < |vars|
      modifies this
      ensures Elsewhere(old(Snap()), Snap(), u, u)
      ensures Valid() && created == old(created) && |vars| == |old(vars)| && layouts == old(layouts)
      ensures var after := AfterDrop(old(LocalAt(Snap(), u)), target, recovery);
              ok == after.Some? && (ok ==> LocalAt(Snap(), u) == after.value)
      ensures !old(vars)[u].Init? || old(lens)[u] == 0 ==> Snap() == old(Snap())
      ensures Grown(old(Snap()), Snap()) && Free(old(Snap()), Snap())
      ensures !(ok && old(vars)[u].Init? && old(lens)[u] != 0 && Affects(ReverseBits(layouts[u]), target)) ==>
                drops == old(drops)
      ensures ok && old(vars)[u].Init? && old(lens)[u] != 0 && Affects(ReverseBits(layouts[u]), target) ==>
                (vars == old(vars)[u := vars[u]] && vars[u].Init? && lost == old(lost)
                 && drops == old(drops) + [(Var(old(vars)[u].id), Var(vars[u].id))])
      ensures ok && old(vars)[u].Init? && old(lens)[u] != 0 && Affects(ReverseBits(layouts[u]), target) ==>
                forall m :: Solves(m, widths, constraints) ==>
                  Dropped(Eval(m, Var(old(vars)[u].id)), Eval(m, Var(vars[u].id)),
                          ReverseBits(layouts[u]), target, recovery)
      ensures target != Deeper ==> lost == old(lost)
      ensures !ok || (target != Deeper && !Affects(ReverseBits(layouts[u]), target)) ==> Snap() == old(Snap())
    {
      ghost var s := Snap();
      StayFree(s, s);
      if lens[u] == 0 || !vars[u].Init? {
        return true;
      }
      var len, old', new' := lens[u], vars[u].id, |widths|;
      var kept := ReverseBits(layouts[u]);
      if target == Deeper {
        GiveUp(u);
        StayFree(s, Snap());
        return true;
      }
      if target.Field? && target.index >= |kept| {
        return true;
      }
      var term := DropTerm(old', len, kept, target, recovery);
      if term == None {
        return false;
      }
      var t := term.value;
      var f := Eq(Var(new'), t);
      forall m | Solves(m, widths + [len], constraints + [f]) ensures Eval(m, Var(new')) == Eval(m, t) {
        LastHolds(m, widths + [len], constraints + [f], f);
      }
      Replace(u, len, t, 0, [(Var(old'), Var(new'))]);
      ok := true;
    }

    /** A pointer passed to a call keeps its vector, which must own nothing. */
    method PassPointer(a: nat)
      requires Valid() && a < |vars|
      modifies this
      ensures Elsewhere(old(Snap()), Snap(), a, a)
      ensures Valid() && created == old(created) && drops == old(drops) && lost == old(lost) && |vars| == |old(vars)|
      ensures old(vars)[a].Init? && old(lens)[a] != 0 ==>
                (vars == old(vars)[a := vars[a]]
                 && NeedsEmpty(old(Snap()), Snap(), a)
                 && forall m :: Solves(m, widths, constraints) ==> Held(m, old(vars)[a]) == 0 == Held(m, vars[a]))
      ensures !old(vars)[a].Init? || old(lens)[a] == 0 ==> Snap() == old(Snap())
      ensures LocalAt(Snap(), a) == old(LocalAt(Snap(), a)) && Grown(old(Snap()), Snap())
    {
      if lens[a] == 0 || !vars[a].Init? {
        return;
      }
      var old', new', len := vars[a].id, |widths|, lens[a];
      ghost var s0 := Snap();
      HoldsNothing(a);
      ghost var s := Snap();
      EmptyOnly(s0, s, a);
      var f := Eq(Var(new'), Var(old'));
      forall m | Solves(m, widths + [len], constraints + [f])
        ensures Held(m, s.vars[a]) == 0 == Ones(Eval(m, Var(new')))
      {
        LastHolds(m, widths + [len], constraints + [f], f);
        SolvesFewer(m, widths, constraints, widths + [len], constraints + [f]);
        TargetEmpty(m, s, s, a);
      }
      Replace(a, len, Var(old'), 0, []);
      ThenFree(s0, s, Snap());
    }

    // ---------------------------------------------------------------- return

    /** `handle_return`: the return place is dropped, and every other local that is not an
        argument must own nothing. */
    method HandleReturn() returns (ok: bool)
      requires Valid()
      modifies this
      ensures Valid() && created == old(created) && |vars| == |old(vars)|
      ensures ok == AfterDrop(old(LocalAt(Snap(), 0)), Whole, false).Some?
      ensures lost == old(lost) && Grown(old(Snap()), Snap())
      ensures ok ==> forall m :: Solves(m, widths, constraints) ==> SettledBefore(m, old(Snap()), argCount)
      ensures ok ==> Settled(Snap(), argCount) && ReturnsIff(old(Snap()), Snap(), argCount + 1, |vars|)
      ensures ok ==> (Solvable(Snap()) <==> CleanlySolvable(old(Snap()), argCount + 1))
    {
      ghost var s0 := Snap();
      ok := DropReturnPlace();
      if !ok {
        return;
      }
      ghost var s := Snap();
      ReturnsIffStart(s0, s, argCount + 1);
      ReturnLocals(s0);
      ReturnDone(s0, s, Snap(), argCount);
      ReturnSettles(s0, Snap(), argCount);
    }

    method DropReturnPlace() returns (ok: bool)
      requires Valid()
      modifies this
      ensures Valid() && created == old(created) && |vars| == |old(vars)|
      ensures ok == AfterDrop(old(LocalAt(Snap(), 0)), Whole, false).Some? && lost == old(lost)
      ensures forall k :: 0 < k < |vars| ==> vars[k] == old(vars)[k]
      ensures Grown(old(Snap()), Snap()) && Free(old(Snap()), Snap())
    {
      ok := HandleDrop(0, Whole, false);
    }

    /** The constraints of a return on every local. */
    method ReturnLocals(ghost s0: Flow)
      requires Valid() && Shaped(s0) && |s0.vars| == |vars| && Grown(s0, Snap())
      requires (forall k :: 0 < k < |vars| ==> vars[k] == s0.vars[k]) && ReturnsIff(s0, Snap(), argCount + 1, 0)
      modifies this`widths, this`constraints
      ensures Valid() && Grown(s0, Snap()) && Snap() == old(Snap()).(widths := widths, constraints := constraints)
      ensures Empties(Snap(), argCount + 1, |vars|) && ReturnsIff(s0, Snap(), argCount + 1, |vars|)
    {
      var i := 0;
      while i < |vars|
        invariant i <= |vars| && Valid()
        invariant Empties(Snap(), argCount + 1, i)
        invariant Grown(s0, Snap()) && ReturnsIff(s0, Snap(), argCount + 1, i)
      {
        ghost var t := Snap();
        if lens[i] != 0 && i > argCount && vars[i].Init? {
          ReturnsNothing(i);
        } else {
          StayFree(t, t);
        }
        EmptiesGrow(t, Snap(), argCount + 1, i);
        ReturnsIffGrow(s0, t, Snap(), argCount + 1, i);
        i := i + 1;
      }
    }

    method ReturnsNothing(i: nat)
      requires Valid() && i < |vars| && vars[i].Init?
      modifies this`widths, this`constraints
      ensures Valid() && Grown(old(Snap()), Snap()) && NeedsEmpty(old(Snap()), Snap(), i)
      ensures forall m :: Solves(m, widths, constraints) ==> Held(m, vars[i]) == 0
    {
      ghost var s := Snap();
      var ret := |widths|;
      widths := widths + [lens[i]];
      var f := Both(Eq(Var(ret), Var(vars[i].id)), Eq(Var(ret), Lit(Zeros(lens[i]))));
      ScopedEq(Var(ret), Var(vars[i].id), |widths|);
      ScopedEq(Var(ret), Lit(Zeros(lens[i])), |widths|);
      ScopedPair(f.f, f.g, |widths|);
      ScopedAllMore(constraints, ret, [f], |widths|);
      constraints := constraints + [f];
      MoreConstraints(s, Snap());
      forall m | Solves(m, widths, constraints) ensures Held(m, vars[i]) == 0 {
        LastHolds(m, widths, constraints, f);
        assert Holds(m, f.f) && Holds(m, f.g);
        ZerosHoldNothing(lens[i]);
      }
      ReturnOnly(s, Snap(), i);
    }

    // ---------------------------------------------------------------- runs

    method Step(op: Op) returns (ok: bool)
      requires Valid() && InRange(op, |vars|)
      modifies this
      ensures Valid() && |vars| == |old(vars)| && ok == Next(old(ShapeOf(Snap())), op).Some?
      ensures ok ==> Stepped(old(Snap()), Snap(), argCount, op)
    {
      if op.Copy? || op.Move? {
        StepWhole(op);
        ok := true;
      } else if op.FieldToField? || op.Drop? {
        ok := StepFieldOrDrop(op);
      } else {
        ok := StepCall(op);
      }
    }

    method StepWhole(op: Op)
      requires Valid() && InRange(op, |vars|) && (op.Copy? || op.Move?)
      modifies this
      ensures Valid() && |vars| == |old(vars)| && Stepped(old(Snap()), Snap(), argCount, op)
    {
      ghost var s := Snap();
      if op.Copy? {
        HandleCopy(op.l, op.r, op.priority);
      } else {
        HandleMove(op.l, op.r, op.priority);
      }
      AssignStepped(s, Snap(), argCount, op);
    }

    method StepFieldOrDrop(op: Op) returns (ok: bool)
      requires Valid() && InRange(op, |vars|) && (op.FieldToField? || op.Drop?)
      modifies this
      ensures Valid() && |vars| == |old(vars)| && ok == Next(old(ShapeOf(Snap())), op).Some?
      ensures ok ==> Stepped(old(Snap()), Snap(), argCount, op)
    {
      ghost var s := Snap();
      if op.FieldToField? {
        ok := HandleFieldToField(op.l, op.fl, op.r, op.fr, op.required, op.layout, op.ty, op.copy);
        if ok {
          FieldStepped(s, Snap(), argCount, op);
        }
      } else {
        ok := HandleDrop(op.u, op.target, op.recovery);
        if ok {
          DropStepped(s, Snap(), argCount, op);
        }
      }
    }

    method StepCall(op: Op) returns (ok: bool)
      requires Valid() && InRange(op, |vars|) && (op.Call? || op.Pass?)
      modifies this
      ensures Valid() && |vars| == |old(vars)| && ok == Next(old(ShapeOf(Snap())), op).Some?
      ensures ok ==> Stepped(old(Snap()), Snap(), argCount, op)
    {
      ghost var s := Snap();
      if op.Call? {
        ok := CallResult(op.l, op.required, op.layout, op.pointers, op.priority, op.ty);
        if ok {
          CallStepped(s, Snap(), argCount, op);
        }
      } else {
        PassPointer(op.a);
        ok := true;
        PassStepped(s, Snap(), argCount, op);
      }
    }

    /** Any run of operations followed by the return, judged by the operations, the shape and the bits
        it starts from. It completes exactly when the shapes do; it creates what its calls create;
        it loses nothing when no operation gives a followed local up; in every solution, what
        was created was cleared by drops, given up, or is left in the return place and the
        arguments; and a solution is left, so that no leak is reported, exactly when some solution
        at the start holds bits from which the operations can end clean. That is never so when more
        is created than drops can clear, losses can swallow and those places can hold. */
    method Run(ops: seq<Op>) returns (ok: bool)
      requires Valid() && AllInRange(ops, |vars|)
      modifies this
      ensures Valid()
      ensures ok <==> Completes(old(ShapeOf(Snap())), ops)
      ensures ok ==> created == old(created) + AllMade(old(ShapeOf(Snap())), ops)
      ensures ok && AllKeep(old(ShapeOf(Snap())), argCount, ops) ==> lost == old(lost)
      ensures ok ==> Settled(Snap(), argCount)
      ensures ok ==> (Solvable(Snap()) <==> CanEndClean(old(Snap()), argCount, ops))
      ensures ok && old(drops) == [] && old(lost) == []
              && Overdraws(old(created), old(ShapeOf(Snap())), argCount, ops) ==>
                forall m :: !Solves(m, widths, constraints)
    {
      if drops == [] && lost == [] && Overdraws(created, ShapeOf(Snap()), argCount, ops) {
        OverdrawnCannotEndClean(Snap(), argCount, ops);
      }
      ok := RunOps(ops);
      if !ok {
        return;
      }
      NothingToGo(Snap(), argCount);
      ok := HandleReturn();
      if ok && !Solvable(Snap()) {
        NoSolution(Snap());
      }
    }

    method RunOps(ops: seq<Op>) returns (ok: bool)
      requires Valid() && AllInRange(ops, |vars|)
      modifies this
      ensures Valid() && |vars| == |old(vars)| && ok == After(old(ShapeOf(Snap())), ops).Some?
      ensures ok ==> After(old(ShapeOf(Snap())), ops) == Some(ShapeOf(Snap()))
      ensures ok ==> created == old(created) + AllMade(old(ShapeOf(Snap())), ops)
      ensures ok && AllKeep(old(ShapeOf(Snap())), argCount, ops) ==> lost == old(lost)
      ensures ok ==> (CanEndClean(old(Snap()), argCount, ops) <==> CanEndClean(Snap(), argCount, []))
    {
      ghost var s := Snap();
      assert ops[0..] == ops;
      for k := 0 to |ops|
        invariant Valid() && |vars| == |old(vars)| && Along(s, Snap(), argCount, ops, ops[k..])
      {
        ghost var t := Snap();
        ok := Step(ops[k]);
        if !ok {
          return;
        }
        AlongNext(s, t, Snap(), argCount, ops, ops[k..]);
        assert ops[k..][1..] == ops[k + 1..];
      }
      assert ops[|ops|..] == [];
      ok := true;
    }

    /** An argument has no layout when it enters and never gets one: after any operations, a whole
        drop leaves it nothing and a field drop leaves it as it is. */
    method DropArgumentLater(a: nat, ops: seq<Op>, target: Target) returns (ok: bool, ghost before: IntraVar)
      requires Valid() && AllInRange(ops, |vars|) && a < |vars| && vars[a].Init? && layouts[a] == [] && target != Deeper
      modifies this
      ensures Valid() && |vars| == |old(vars)|
      ensures ok ==> layouts[a] == [] && (target.Field? ==> vars[a] == before)
      ensures ok && target == Whole ==> forall m :: Solves(m, widths, constraints) ==> Held(m, vars[a]) == 0
    {
      ghost var sh := ShapeOf(Snap());
      before := vars[a];
      ok := RunOps(ops);
      if !ok {
        return;
      }
      LayoutStays(sh, ops, a);
      before := vars[a];
      ghost var width := lens[a];
      ok := HandleDrop(a, target, false);
      if ok && target == Whole {
        forall m | Solves(m, widths, constraints) ensures Held(m, vars[a]) == 0 {
          if before.Init? && width > 0 {
            LayoutlessIff([], width);
            ZerosHoldNothing(width);
            assert Dropped(Eval(m, Var(before.id)), Eval(m, Var(vars[a].id)), [], Whole, false);
          }
        }
      }
    }
  }

  /** The state after the arguments have been entered. */
  ghost predicate Entered(s: Flow, locals: nat, args: seq<Argument>)
    requires |args| < locals
  {
    && Shaped(s) && |s.vars| == locals && ShapeOf(s) == EntryShape(locals, args) && Solvable(s)
    && s.created == EntryMade(args) && s.drops == [] && s.lost == []
    && (forall m :: Exact(m, s) ==> Own(m, s) == EntryHolding(locals, args))
  }

  lemma NothingEntered(s: Flow, locals: nat)
    requires 0 < locals == |s.vars| && Shaped(s) && s.widths == [] && s.constraints == []
    requires s.created == 0 && s.drops == [] && s.lost == []
    requires forall i :: 0 <= i < locals ==> LocalAt(s, i) == Local(Unset, 0, [], 0)
    ensures Entered(s, locals, [])
  {
    assert Exact([], s);
    assert ShapeOf(s) == EntryShape(locals, []);
    forall m ensures Own(m, s) == EntryHolding(locals, []) {
      forall i | 0 <= i < locals ensures Own(m, s)[i] == [] {
        assert LocalAt(s, i).status == Unset;
      }
    }
  }

  lemma EnteredNext(s: Flow, t: Flow, locals: nat, args: seq<Argument>, k: nat)
    requires |args| < locals && k < |args| && Entered(s, locals, args[..k]) && Grown(s, t) && Free(s, t)
    requires Shaped(t) && Elsewhere(s, t, k + 1, k + 1) && LocalAt(t, k + 1) == EntryLocal(args[k])
    requires t.created == s.created + (if args[k].owned then Ones(LayoutBits(args[k].layout)) else 0)
    requires t.drops == [] && t.lost == []
    requires forall m :: Exact(m, t) ==> OwnOf(m, t.vars[k + 1]) == EntryBits(args[k])
    ensures Entered(t, locals, args[..k + 1])
  {
    ShapeUpdateOne(s, t, k + 1);
    EntryNext(locals, args, k);
    EntryHoldingNext(locals, args, k);
    forall m | Exact(m, t) ensures Own(m, t) == EntryHolding(locals, args[..k + 1]) {
      Restrict(m, s, t);
      OwnStable(m[..|s.widths|], m, s);
      OwnElsewhere(m, s, t, k + 1, k + 1);
    }
    var m :| Exact(m, s);
    assert Continues(m, t);
  }

  /** From the entry the bits are known, so what can end clean is decided by the operations. */
  lemma EnteredRun(s: Flow, locals: nat, args: seq<Argument>, ops: seq<Op>)
    requires |args| < locals && Entered(s, locals, args) && AllInRange(ops, locals)
    ensures CanEndClean(s, |args|, ops) <==>
            EndsClean(EntryShape(locals, args), EntryHolding(locals, args), |args|, ops)
  {
    var m :| Exact(m, s);
  }

  /** A whole path from the entry of a function to its return, judged by the declared arguments and
      the operations alone: a leak is reported exactly when the bits cannot end clean. */
  method AnalysePath(locals: nat, args: seq<Argument>, ops: seq<Op>) returns (a: Analysis, ok: bool)
    requires |args| < locals && AllInRange(ops, locals)
    ensures a.Valid() && a.argCount == |args|
    ensures ok <==> (forall k :: 0 <= k < |args| ==> Fits(args[k])) && Completes(EntryShape(locals, args), ops)
    ensures ok ==> Settled(a.Snap(), |args|) && a.created == EntryMade(args) + AllMade(EntryShape(locals, args), ops)
    ensures ok && AllKeep(EntryShape(locals, args), |args|, ops) ==> a.lost == []
    ensures ok ==> (Solvable(a.Snap()) <==>
                    EndsClean(EntryShape(locals, args), EntryHolding(locals, args), |args|, ops))
    ensures ok && Overdraws(EntryMade(args), EntryShape(locals, args), |args|, ops) ==>
              forall m :: !Solves(m, a.widths, a.constraints)
  {
    a, ok := EnterAll(locals, args);
    if !ok {
      return;
    }
    EnteredRun(a.Snap(), locals, args, ops);
    ok := a.Run(ops);
  }

  /** The loop over the arguments. */
  method EnterAll(locals: nat, args: seq<Argument>) returns (a: Analysis, ok: bool)
    requires |args| < locals
    ensures fresh(a) && a.Valid() && a.argCount == |args|
    ensures ok <==> forall k :: 0 <= k < |args| ==> Fits(args[k])
    ensures ok ==> Entered(a.Snap(), locals, args)
  {
    a := new Analysis(locals, |args|);
    assert args[..0] == [];
    NothingEntered(a.Snap(), locals);
    for k := 0 to |args|
      invariant fresh(a) && a.Valid() && a.argCount == |args| && Entered(a.Snap(), locals, args[..k])
      invariant forall i :: 0 <= i < k ==> Fits(args[i])
    {
      ok := a.Enter(locals, args, k);
      if !ok {
        return;
      }
    }
    assert args[..|args|] == args;
    ok := true;
  }
}
