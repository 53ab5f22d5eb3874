/** The bit-vector constraints that rCanary hands to its solver, as terms and formulas with a
    meaning in every assignment of vectors to names. */
module Constraints {
  import opened BitVectors

  datatype Term = Var(id: nat) | Lit(bits: Bits) | AndT(a: Term, b: Term)
                | ExtractT(t: Term, from: nat, to: nat) | ConcatT(high: Term, low: Term)

  datatype Formula = Eq(a: Term, b: Term) | Both(f: Formula, g: Formula) | Either(f: Formula, g: Formula)

  /** A solution assigns a vector to every fresh name. */
  type Model = seq<Bits>

  ghost function Eval(m: Model, t: Term): (b: Bits) {
    match t
    case Var(id) => if id < |m| then m[id] else []
    case Lit(bits) => bits
    case AndT(a, b) =>
      var x, y := Eval(m, a), Eval(m, b);
      if |x| == |y| then And(x, y) else []
    case ExtractT(u, high, low) =>
      var x := Eval(m, u);
      if low <= high < |x| then Extract(x, high, low) else []
    case ConcatT(high, low) => Concat(Eval(m, high), Eval(m, low))
  }

  ghost predicate Holds(m: Model, f: Formula) {
    match f
    case Eq(a, b) => Eval(m, a) == Eval(m, b)
    case Both(g, h) => Holds(m, g) && Holds(m, h)
    case Either(g, h) => Holds(m, g) || Holds(m, h)
  }

  /** `m` has the declared widths and satisfies every constraint. */
  ghost predicate Solves(m: Model, widths: seq<nat>, constraints: seq<Formula>) {
    && |m| >= |widths| && (forall i :: 0 <= i < |widths| ==> |m[i]| == widths[i])
    && (forall i :: 0 <= i < |constraints| ==> Holds(m, constraints[i]))
  }

  // ---------------------------------------------------------------- scoping

  /** Only the first `n` names occur. */
  predicate Scoped(t: Term, n: nat) {
    match t
    case Var(id) => id < n
    case Lit(_) => true
    case AndT(a, b) => Scoped(a, n) && Scoped(b, n)
    case ExtractT(u, _, _) => Scoped(u, n)
    case ConcatT(a, b) => Scoped(a, n) && Scoped(b, n)
  }

  predicate ScopedFormula(f: Formula, n: nat) {
    match f
    case Eq(a, b) => Scoped(a, n) && Scoped(b, n)
    case Both(g, h) => ScopedFormula(g, n) && ScopedFormula(h, n)
    case Either(g, h) => ScopedFormula(g, n) && ScopedFormula(h, n)
  }

  ghost predicate ScopedAll(fs: seq<Formula>, n: nat) {
    forall i :: 0 <= i < |fs| ==> ScopedFormula(fs[i], n)
  }

  lemma ScopedEq(a: Term, b: Term, n: nat)
    requires Scoped(a, n) && Scoped(b, n)
    ensures ScopedFormula(Eq(a, b), n)
  {
  }

  lemma ScopedPair(f: Formula, g: Formula, n: nat)
    requires ScopedFormula(f, n) && ScopedFormula(g, n)
    ensures ScopedFormula(Both(f, g), n) && ScopedFormula(Either(f, g), n)
  {
  }

  lemma {:induction t} ScopedMore(t: Term, n: nat, n': nat)
    requires Scoped(t, n) && n <= n'
    ensures Scoped(t, n')
  {
  }

  lemma {:induction false} ScopedFormulaMore(f: Formula, n: nat, n': nat)
    requires ScopedFormula(f, n) && n <= n'
    ensures ScopedFormula(f, n')
  {
    match f
    case Eq(a, b) => ScopedMore(a, n, n'); ScopedMore(b, n, n');
    case Both(g, h) => ScopedFormulaMore(g, n, n'); ScopedFormulaMore(h, n, n');
    case Either(g, h) => ScopedFormulaMore(g, n, n'); ScopedFormulaMore(h, n, n');
  }

  lemma ScopedAllMore(fs: seq<Formula>, n: nat, more: seq<Formula>, n': nat)
    requires ScopedAll(fs, n) && n <= n' && ScopedAll(more, n')
    ensures ScopedAll(fs + more, n')
  {
    forall i | 0 <= i < |fs| ensures ScopedFormula(fs[i], n') {
      ScopedFormulaMore(fs[i], n, n');
    }
  }

  /** More names do not change the meaning of a term that does not use them. */
  lemma {:induction false} EvalStable(m: Model, m': Model, t: Term)
    requires m <= m' && Scoped(t, |m|)
    ensures Eval(m, t) == Eval(m', t)
  {
    match t
    case Var(_) =>
    case Lit(_) =>
    case AndT(a, b) => EvalStable(m, m', a); EvalStable(m, m', b);
    case ExtractT(u, _, _) => EvalStable(m, m', u);
    case ConcatT(a, b) => EvalStable(m, m', a); EvalStable(m, m', b);
  }

  lemma {:induction false} HoldsStable(m: Model, m': Model, f: Formula)
    requires m <= m' && ScopedFormula(f, |m|)
    ensures Holds(m, f) == Holds(m', f)
  {
    match f
    case Eq(a, b) => EvalStable(m, m', a); EvalStable(m, m', b);
    case Both(g, h) => HoldsStable(m, m', g); HoldsStable(m, m', h);
    case Either(g, h) => HoldsStable(m, m', g); HoldsStable(m, m', h);
  }

  /** `t` is `l` with one bit replaced. */
  ghost predicate Spliced(m: Model, l: Term, width: nat, index: nat, bit: Term, t: Term)
    requires index < width
  {
    |Eval(m, l)| == width && |Eval(m, bit)| == 1 ==> Eval(m, t) == Eval(m, l)[index := Eval(m, bit)[0]]
  }

  /** The splice of the field handlers, as a term. */
  method SpliceTerm(l: Term, width: nat, index: nat, bit: Term) returns (t: Term)
    requires index < width
    ensures forall m :: Spliced(m, l, width, index, bit, t)
    ensures forall n :: Scoped(l, n) && Scoped(bit, n) ==> Scoped(t, n)
  {
    if index < width - 1 {
      t := ConcatT(ExtractT(l, width - 1, index + 1), bit);
    } else {
      t := bit;
    }
    ghost var upper := t;
    if index > 0 {
      t := ConcatT(t, ExtractT(l, index - 1, 0));
    }
    forall m ensures Spliced(m, l, width, index, bit, t) {
      SpliceMeans(m, l, width, index, bit, upper, t);
    }
    forall n | Scoped(l, n) && Scoped(bit, n) ensures Scoped(t, n) {
      assert Scoped(upper, n);
    }
  }

  lemma SpliceMeans(m: Model, l: Term, width: nat, index: nat, bit: Term, upper: Term, t: Term)
    requires index < width
    requires upper == if index < width - 1 then ConcatT(ExtractT(l, width - 1, index + 1), bit) else bit
    requires t == if index > 0 then ConcatT(upper, ExtractT(l, index - 1, 0)) else upper
    ensures Spliced(m, l, width, index, bit, t)
  {
    var x, y := Eval(m, l), Eval(m, bit);
    if |x| == width && |y| == 1 {
      assert Eval(m, upper) == y + x[index + 1..] by {
        if index < width - 1 {
          EvalCut(m, l, width - 1, index + 1, bit, upper);
        } else {
          assert y + x[index + 1..] == y;
        }
      }
      assert Eval(m, t) == x[..index] + Eval(m, upper) by {
        if index > 0 {
          assert Eval(m, ExtractT(l, index - 1, 0)) == x[0..index];
        } else {
          assert x[..index] + Eval(m, upper) == Eval(m, upper);
        }
      }
      SpliceBits(x, y, index);
    }
  }

  lemma EvalCut(m: Model, l: Term, high: nat, low: nat, bit: Term, t: Term)
    requires low <= high < |Eval(m, l)| && t == ConcatT(ExtractT(l, high, low), bit)
    ensures Eval(m, t) == Eval(m, bit) + Eval(m, l)[low..high + 1]
  {
    assert Eval(m, ExtractT(l, high, low)) == Eval(m, l)[low..high + 1];
  }

  lemma SpliceBits(x: Bits, y: Bits, index: nat)
    requires index < |x| && |y| == 1
    ensures x[..index] + (y + x[index + 1..]) == x[index := y[0]]
  {
  }
}
