/** The joining of predecessor states at the start of a block: each local gets the vector that
    keeps exactly the ownership all predecessors agree on. */
module Join {
  import opened Wrappers
  import opened BitVectors
  import opened Constraints
  import opened Balance

  /** One local in the final state of a predecessor. */
  datatype Slot = Slot(v: IntraVar, len: nat, ty: Option<nat>)

  /** The local after the join: unsupported, as in the first predecessor, or a new vector. */
  datatype Outcome = Conflict | Untouched | Phi(t: Term, len: nat, ty: Option<nat>)

  /** Some predecessor gave the local up, or two disagree about its type. */
  ghost predicate Clash(pre: seq<Slot>) {
    || (exists k :: 0 <= k < |pre| && pre[k].v == Unsupported)
    || (exists j, k :: 0 <= j < |pre| && 0 <= k < |pre| && pre[j].v.Init? && pre[k].v.Init? && pre[j].ty != pre[k].ty)
  }

  ghost predicate Uniform(m: Model, pre: seq<Slot>, width: nat) {
    forall k :: 0 <= k < |pre| && pre[k].v.Init? ==> |Eval(m, Var(pre[k].v.id))| == width
  }

  /** Bit `i` is owned in each of the first `n` predecessors that initialise the local. */
  ghost predicate AllOwn(m: Model, pre: seq<Slot>, n: nat, i: nat)
    requires n <= |pre|
  {
    forall k :: 0 <= k < n && pre[k].v.Init? ==> Owns(m, pre[k].v.id, i)
  }

  ghost predicate Owns(m: Model, id: nat, i: nat) {
    i < |Eval(m, Var(id))| && Eval(m, Var(id))[i]
  }

  ghost predicate Meets(m: Model, t: Term, pre: seq<Slot>, n: nat, width: nat)
    requires n <= |pre|
  {
    |Eval(m, t)| == width && forall i :: 0 <= i < width ==> (Eval(m, t)[i] <==> AllOwn(m, pre, n, i))
  }

  /** The loop over the predecessors of one local. */
  method JoinLocal(pre: seq<Slot>) returns (j: Outcome)
    requires forall k :: 0 <= k < |pre| && pre[k].v.Init? ==> pre[k].ty.Some?
    ensures j == Conflict <==> Clash(pre)
    ensures j == Untouched <==> forall k :: 0 <= k < |pre| ==> pre[k].v == Declared
    ensures j.Phi? ==> forall k :: 0 <= k < |pre| && pre[k].v.Init? ==> pre[k].ty == j.ty
    ensures j.Phi? ==> exists k :: 0 <= k < |pre| && pre[k].v.Init? && pre[k].len == j.len
    ensures j.Phi? ==> forall m, width: nat :: Uniform(m, pre, width) ==> Meets(m, j.t, pre, |pre|, width)
  {
    var using: Option<Term>, ty: Option<nat>, len := None, None, 0;
    for k := 0 to |pre|
      invariant forall i :: 0 <= i < k ==> pre[i].v != Unsupported
      invariant forall i :: 0 <= i < k && pre[i].v.Init? ==> using.Some? && pre[i].ty == ty
      invariant using.Some? <==> ty.Some?
      invariant using.Some? ==> exists i :: 0 <= i < k && pre[i].v.Init? && pre[i].len == len && pre[i].ty == ty
      invariant using.Some? ==> forall m, width: nat :: Uniform(m, pre, width) ==> Meets(m, using.value, pre, k, width)
    {
      if pre[k].v == Declared {
        SkipDeclared(using, pre, k);
        continue;
      }
      if pre[k].v == Unsupported {
        return Conflict;
      }
      ghost var before := using;
      if ty == None {
        ty, len := pre[k].ty, pre[k].len;
        using := Some(Var(pre[k].v.id));
      }
      if ty != pre[k].ty {
        return Conflict;
      }
      StepJoin(before, using.value, pre, k);
      using := Some(AndT(using.value, Var(pre[k].v.id)));
    }
    if using == None {
      return Untouched;
    }
    j := Phi(using.value, len, ty);
  }

  lemma SkipDeclared(using: Option<Term>, pre: seq<Slot>, k: nat)
    requires k < |pre| && pre[k].v == Declared
    requires using.Some? ==> forall m, width: nat :: Uniform(m, pre, width) ==> Meets(m, using.value, pre, k, width)
    ensures using.Some? ==> forall m, width: nat :: Uniform(m, pre, width) ==> Meets(m, using.value, pre, k + 1, width)
  {
    if using.Some? {
      forall m, width: nat | Uniform(m, pre, width) ensures Meets(m, using.value, pre, k + 1, width) {
        assert Meets(m, using.value, pre, k, width);
        assert forall i :: 0 <= i < width ==> (AllOwn(m, pre, k + 1, i) <==> AllOwn(m, pre, k, i));
      }
    }
  }

  /** One more predecessor: the first vector is met with itself. */
  lemma StepJoin(before: Option<Term>, using: Term, pre: seq<Slot>, k: nat)
    requires k < |pre| && pre[k].v.Init?
    requires before.Some? ==> using == before.value
    requires before.Some? ==> forall m, width: nat :: Uniform(m, pre, width) ==> Meets(m, using, pre, k, width)
    requires before == None ==> using == Var(pre[k].v.id) && forall i :: 0 <= i < k ==> !pre[i].v.Init?
    ensures forall m, width: nat :: Uniform(m, pre, width) ==>
              Meets(m, AndT(using, Var(pre[k].v.id)), pre, k + 1, width)
  {
    forall m, width: nat | Uniform(m, pre, width) ensures Meets(m, AndT(using, Var(pre[k].v.id)), pre, k + 1, width) {
      var x, y := Eval(m, using), Eval(m, Var(pre[k].v.id));
      assert before.Some? ==> Meets(m, using, pre, k, width);
      assert Eval(m, AndT(using, Var(pre[k].v.id))) == And(x, y);
      forall i | 0 <= i < width ensures (x[i] && y[i]) <==> AllOwn(m, pre, k + 1, i) {
        assert AllOwn(m, pre, k + 1, i) <==> AllOwn(m, pre, k, i) && Owns(m, pre[k].v.id, i);
      }
    }
  }

  /** A join creates no ownership: it owns at most what each initialising predecessor owns. */
  lemma JoinOwnsLess(m: Model, t: Term, pre: seq<Slot>, width: nat, k: nat)
    requires Uniform(m, pre, width) && Meets(m, t, pre, |pre|, width) && k < |pre| && pre[k].v.Init?
    ensures Ones(Eval(m, t)) <= Held(m, pre[k].v)
  {
    forall i | 0 <= i < width && Eval(m, t)[i] ensures Eval(m, Var(pre[k].v.id))[i] {
      assert Owns(m, pre[k].v.id, i);
    }
    OnesMonotone(Eval(m, t), Eval(m, Var(pre[k].v.id)));
  }
}
