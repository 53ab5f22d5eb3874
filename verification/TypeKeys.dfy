/** Lifetime-insensitive keys for types: an equality and a hash that ignore lifetimes, array
    lengths and patterns, the labels printed for types, and the node table built on them. */
module TypeKeys {

  datatype Arg = Lifetime(region: nat) | TypeArg(ty: Ty) | ConstArg(value: nat)

  datatype Ty =
    | Adt(did: nat, args: seq<Arg>)
    | RawPtr(inner: Ty, mutable: bool)
    | Ref(region: nat, inner: Ty, mutable: bool)
    | Array(inner: Ty, len: nat)
    | Pat(inner: Ty, pattern: nat)
    | Slice(inner: Ty)
    | Tuple(tys: seq<Ty>)
    | Other(id: nat)

  // ---------------------------------------------------------------- equality

  /** `eq_ty`: generic arguments are compared pairwise, as far as both lists go. */
  predicate EqTy(a: Ty, b: Ty)
    decreases a
  {
    match (a, b)
    case (Adt(d, xs), Adt(e, ys)) =>
      d == e && forall i :: 0 <= i < |xs| && i < |ys| ==> EqArg(xs[i], ys[i])
    case (RawPtr(x, m), RawPtr(y, n)) => m == n && EqTy(x, y)
    case (Ref(_, x, m), Ref(_, y, n)) => m == n && EqTy(x, y)
    case (Array(x, _), Array(y, _)) => EqTy(x, y)
    case (Pat(x, _), Pat(y, _)) => EqTy(x, y)
    case (Slice(x), Slice(y)) => EqTy(x, y)
    case (Tuple(xs), Tuple(ys)) => |xs| == |ys| && forall i :: 0 <= i < |xs| ==> EqTy(xs[i], ys[i])
    case _ => a == b
  }

  predicate EqArg(a: Arg, b: Arg)
    decreases a
  {
    match (a, b)
    case (Lifetime(_), Lifetime(_)) => true
    case (TypeArg(x), TypeArg(y)) => EqTy(x, y)
    case (ConstArg(x), ConstArg(y)) => x == y
    case _ => false
  }

  /** The type with every lifetime, array length and pattern forgotten. */
  function Erase(t: Ty): (r: Ty)
    decreases t
  {
    match t
    case Adt(did, args) => Adt(did, seq(|args|, i requires 0 <= i < |args| => EraseArg(args[i])))
    case RawPtr(inner, m) => RawPtr(Erase(inner), m)
    case Ref(_, inner, m) => Ref(0, Erase(inner), m)
    case Array(inner, _) => Array(Erase(inner), 0)
    case Pat(inner, _) => Pat(Erase(inner), 0)
    case Slice(inner) => Slice(Erase(inner))
    case Tuple(tys) => Tuple(seq(|tys|, i requires 0 <= i < |tys| => Erase(tys[i])))
    case Other(_) => t
  }

  function EraseArg(a: Arg): (r: Arg)
    decreases a
  {
    match a
    case Lifetime(_) => Lifetime(0)
    case TypeArg(ty) => TypeArg(Erase(ty))
    case ConstArg(_) => a
  }

  /** Wherever the comparison meets two instances, both have as many arguments. */
  predicate SameArity(a: Ty, b: Ty)
    decreases a
  {
    match (a, b)
    case (Adt(_, xs), Adt(_, ys)) =>
      |xs| == |ys| && forall i :: 0 <= i < |xs| && xs[i].TypeArg? && ys[i].TypeArg? ==> SameArity(xs[i].ty, ys[i].ty)
    case (RawPtr(x, _), RawPtr(y, _)) => SameArity(x, y)
    case (Ref(_, x, _), Ref(_, y, _)) => SameArity(x, y)
    case (Array(x, _), Array(y, _)) => SameArity(x, y)
    case (Pat(x, _), Pat(y, _)) => SameArity(x, y)
    case (Slice(x), Slice(y)) => SameArity(x, y)
    case (Tuple(xs), Tuple(ys)) => forall i :: 0 <= i < |xs| && i < |ys| ==> SameArity(xs[i], ys[i])
    case _ => true
  }

  lemma SameElements<T>(xs: seq<T>, ys: seq<T>)
    ensures xs == ys <==> |xs| == |ys| && forall i :: 0 <= i < |xs| ==> xs[i] == ys[i]
  {
  }

  /** The statement below for one pair of arguments. */
  predicate ErasesAlike(x: Arg, y: Arg) {
    EraseArg(x) == EraseArg(y) <==> EqArg(x, y) && (x.TypeArg? && y.TypeArg? ==> SameArity(x.ty, y.ty))
  }

  lemma InstancesErase(a: Ty, b: Ty)
    requires a.Adt? && b.Adt?
    requires forall i :: 0 <= i < |a.args| && i < |b.args| ==> ErasesAlike(a.args[i], b.args[i])
    ensures Erase(a) == Erase(b) <==> EqTy(a, b) && SameArity(a, b)
  {
    var es, fs := Erase(a).args, Erase(b).args;
    if es == fs {
      forall i | 0 <= i < |a.args| ensures EraseArg(a.args[i]) == EraseArg(b.args[i]) {
        assert es[i] == fs[i];
      }
    } else {
      SameElements(es, fs);
    }
  }

  /** Exactly: erased types agree iff `eq_ty` accepts the pair and no arguments were cut off. */
  lemma {:induction false} ErasedEqualIff(a: Ty, b: Ty)
    ensures Erase(a) == Erase(b) <==> EqTy(a, b) && SameArity(a, b)
    decreases a
  {
    match (a, b)
    case (Adt(d, xs), Adt(e, ys)) =>
      forall i | 0 <= i < |xs| && i < |ys| ensures ErasesAlike(xs[i], ys[i]) {
        if xs[i].TypeArg? && ys[i].TypeArg? {
          ErasedEqualIff(xs[i].ty, ys[i].ty);
        }
      }
      InstancesErase(a, b);
    case (RawPtr(x, _), RawPtr(y, _)) => ErasedEqualIff(x, y);
    case (Ref(_, x, _), Ref(_, y, _)) => ErasedEqualIff(x, y);
    case (Array(x, _), Array(y, _)) => ErasedEqualIff(x, y);
    case (Pat(x, _), Pat(y, _)) => ErasedEqualIff(x, y);
    case (Slice(x), Slice(y)) => ErasedEqualIff(x, y);
    case (Tuple(xs), Tuple(ys)) =>
      forall i | 0 <= i < |xs| && i < |ys|
        ensures Erase(xs[i]) == Erase(ys[i]) <==> EqTy(xs[i], ys[i]) && SameArity(xs[i], ys[i])
      {
        ErasedEqualIff(xs[i], ys[i]);
      }
      var es, fs := Erase(a).tys, Erase(b).tys;
      if es == fs {
        forall i | 0 <= i < |xs| ensures EqTy(xs[i], ys[i]) && SameArity(xs[i], ys[i]) {
          assert es[i] == fs[i];
        }
      } else {
        SameElements(es, fs);
      }
    case _ =>
  }

  /** Every instance of a definition has as many arguments as the definition declares. */
  ghost predicate WellFormed(t: Ty, arity: nat -> nat)
    decreases t
  {
    match t
    case Adt(did, args) =>
      |args| == arity(did) && forall i :: 0 <= i < |args| && args[i].TypeArg? ==> WellFormed(args[i].ty, arity)
    case Tuple(tys) => forall i :: 0 <= i < |tys| ==> WellFormed(tys[i], arity)
    case Other(_) => true
    case _ => WellFormed(t.inner, arity)
  }

  lemma {:induction false} WellFormedArity(a: Ty, b: Ty, arity: nat -> nat)
    requires WellFormed(a, arity) && WellFormed(b, arity) && EqTy(a, b)
    ensures SameArity(a, b)
    decreases a
  {
    match (a, b)
    case (Adt(_, xs), Adt(_, ys)) =>
      forall i | 0 <= i < |xs| && xs[i].TypeArg? && ys[i].TypeArg? ensures SameArity(xs[i].ty, ys[i].ty) {
        assert EqArg(xs[i], ys[i]);
        WellFormedArity(xs[i].ty, ys[i].ty, arity);
      }
    case (RawPtr(x, _), RawPtr(y, _)) => WellFormedArity(x, y, arity);
    case (Ref(_, x, _), Ref(_, y, _)) => WellFormedArity(x, y, arity);
    case (Array(x, _), Array(y, _)) => WellFormedArity(x, y, arity);
    case (Pat(x, _), Pat(y, _)) => WellFormedArity(x, y, arity);
    case (Slice(x), Slice(y)) => WellFormedArity(x, y, arity);
    case (Tuple(xs), Tuple(ys)) =>
      forall i | 0 <= i < |xs| && i < |ys| ensures SameArity(xs[i], ys[i]) {
        WellFormedArity(xs[i], ys[i], arity);
      }
    case _ =>
  }

  /** On the types of one program `eq_ty` is equality up to erasure, hence an equivalence. */
  lemma EqIsErasedEquality(a: Ty, b: Ty, arity: nat -> nat)
    requires WellFormed(a, arity) && WellFormed(b, arity)
    ensures EqTy(a, b) <==> Erase(a) == Erase(b)
  {
    ErasedEqualIff(a, b);
    if EqTy(a, b) {
      WellFormedArity(a, b, arity);
    }
  }

  /** Without that, the pairwise comparison is not transitive. */
  lemma CutOffIsNotTransitive()
    ensures var none, one, two := Adt(0, []), Adt(0, [ConstArg(1)]), Adt(0, [ConstArg(2)]);
            EqTy(one, none) && EqTy(none, two) && !EqTy(one, two)
  {
    var one, two := Adt(0, [ConstArg(1)]), Adt(0, [ConstArg(2)]);
    assert !EqArg(one.args[0], two.args[0]);
  }

  // ---------------------------------------------------------------- hashing

  datatype Token =
    | Tag(n: nat) | Did(n: nat) | Counter(n: nat) | Const(n: nat)
    | Mutability(mutable: bool) | Whole(id: nat) | Name(s: string) | Flag(b: bool)

  /** What `hash_ty` feeds to the hasher, and the lifetime counter afterwards. */
  function HashTy(t: Ty, no: nat): (r: (seq<Token>, nat))
    decreases t, 1, 0
  {
    match t
    case Adt(did, args) => var (s, n) := HashArgs(t, |args|, no); ([Tag(0), Did(did)] + s, n)
    case RawPtr(inner, m) => var (s, n) := HashTy(inner, no); ([Tag(1), Mutability(m)] + s, n)
    case Ref(_, inner, m) => var (s, n) := HashTy(inner, no + 1); ([Tag(2), Mutability(m), Counter(no + 1)] + s, n)
    case Array(inner, _) => var (s, n) := HashTy(inner, no); ([Tag(3)] + s, n)
    case Pat(inner, _) => var (s, n) := HashTy(inner, no); ([Tag(4)] + s, n)
    case Slice(inner) => var (s, n) := HashTy(inner, no); ([Tag(5)] + s, n)
    case Tuple(tys) => var (s, n) := HashTys(t, |tys|, no); ([Tag(6)] + s, n)
    case Other(id) => ([Whole(id)], no)
  }

  /** The first `k` generic arguments. */
  function HashArgs(t: Ty, k: nat, no: nat): (r: (seq<Token>, nat))
    requires t.Adt? && k <= |t.args|
    decreases t, 0, k
  {
    if k == 0 then ([], no)
    else
      var (s, n) := HashArgs(t, k - 1, no);
      var (q, n') := HashArg(t.args[k - 1], n);
      (s + q, n')
  }

  function HashArg(a: Arg, no: nat): (r: (seq<Token>, nat))
    decreases a, 0, 0
  {
    match a
    case Lifetime(_) => ([Counter(no + 1)], no + 1)
    case TypeArg(ty) => HashTy(ty, no)
    case ConstArg(c) => ([Const(c)], no)
  }

  /** The first `k` components of a tuple. */
  function HashTys(t: Ty, k: nat, no: nat): (r: (seq<Token>, nat))
    requires t.Tuple? && k <= |t.tys|
    decreases t, 0, k
  {
    if k == 0 then ([], no)
    else
      var (s, n) := HashTys(t, k - 1, no);
      var (q, n') := HashTy(t.tys[k - 1], n);
      (s + q, n')
  }

  /** `hash_ty`, appending to the hasher's input and advancing the counter. */
  method HashInto(t: Ty, state: seq<Token>, no: nat) returns (state': seq<Token>, no': nat)
    ensures state' == state + HashTy(t, no).0 && no' == HashTy(t, no).1
    decreases t, 1
  {
    no' := no;
    match t
    case Adt(did, args) =>
      state', no' := HashArgsInto(t, state + [Tag(0), Did(did)], no);
    case RawPtr(inner, m) =>
      state', no' := HashInto(inner, state + [Tag(1), Mutability(m)], no');
    case Ref(_, inner, m) =>
      no' := no' + 1;
      state', no' := HashInto(inner, state + [Tag(2), Mutability(m), Counter(no')], no');
    case Array(inner, _) =>
      state', no' := HashInto(inner, state + [Tag(3)], no');
    case Pat(inner, _) =>
      state', no' := HashInto(inner, state + [Tag(4)], no');
    case Slice(inner) =>
      state', no' := HashInto(inner, state + [Tag(5)], no');
    case Tuple(tys) =>
      state', no' := HashTysInto(t, state + [Tag(6)], no);
    case Other(id) =>
      state' := state + [Whole(id)];
  }

  method HashArgsInto(t: Ty, state: seq<Token>, no: nat) returns (state': seq<Token>, no': nat)
    requires t.Adt?
    ensures state' == state + HashArgs(t, |t.args|, no).0 && no' == HashArgs(t, |t.args|, no).1
    decreases t, 0
  {
    state', no' := state, no;
    for k := 0 to |t.args|
      invariant state' == state + HashArgs(t, k, no).0 && no' == HashArgs(t, k, no).1
    {
      match t.args[k]
      case Lifetime(_) =>
        no' := no' + 1;
        state' := state' + [Counter(no')];
      case TypeArg(ty) =>
        state', no' := HashInto(ty, state', no');
      case ConstArg(c) =>
        state' := state' + [Const(c)];
    }
  }

  method HashTysInto(t: Ty, state: seq<Token>, no: nat) returns (state': seq<Token>, no': nat)
    requires t.Tuple?
    ensures state' == state + HashTys(t, |t.tys|, no).0 && no' == HashTys(t, |t.tys|, no).1
    decreases t, 0
  {
    state', no' := state, no;
    for k := 0 to |t.tys|
      invariant state' == state + HashTys(t, k, no).0 && no' == HashTys(t, k, no).1
    {
      state', no' := HashInto(t.tys[k], state', no');
    }
  }

  /** Hashing does not see what erasure removes, from any counter. */
  lemma {:induction false} HashErased(t: Ty, no: nat)
    ensures HashTy(Erase(t), no) == HashTy(t, no)
    decreases t, 1, 0
  {
    match t
    case Adt(_, args) => HashArgsErased(t, |args|, no);
    case RawPtr(inner, _) => HashErased(inner, no);
    case Ref(_, inner, _) => HashErased(inner, no + 1);
    case Array(inner, _) => HashErased(inner, no);
    case Pat(inner, _) => HashErased(inner, no);
    case Slice(inner) => HashErased(inner, no);
    case Tuple(tys) => HashTysErased(t, |tys|, no);
    case Other(_) =>
  }

  lemma {:induction false} HashArgsErased(t: Ty, k: nat, no: nat)
    requires t.Adt? && k <= |t.args|
    ensures HashArgs(Erase(t), k, no) == HashArgs(t, k, no)
    decreases t, 0, k
  {
    if k > 0 {
      HashArgsErased(t, k - 1, no);
      var a := t.args[k - 1];
      assert Erase(t).args[k - 1] == EraseArg(a);
      if a.TypeArg? {
        HashErased(a.ty, HashArgs(t, k - 1, no).1);
      }
    }
  }

  lemma {:induction false} HashTysErased(t: Ty, k: nat, no: nat)
    requires t.Tuple? && k <= |t.tys|
    ensures HashTys(Erase(t), k, no) == HashTys(t, k, no)
    decreases t, 0, k
  {
    if k > 0 {
      HashTysErased(t, k - 1, no);
      HashErased(t.tys[k - 1], HashTys(t, k - 1, no).1);
    }
  }

  /** Equal types hash alike from any starting counter: the law of `Eq` and `Hash`. */
  lemma EqualTypesHashAlike(a: Ty, b: Ty, arity: nat -> nat, no: nat)
    requires WellFormed(a, arity) && WellFormed(b, arity) && EqTy(a, b)
    ensures HashTy(a, no) == HashTy(b, no)
  {
    EqIsErasedEquality(a, b, arity);
    HashErased(a, no);
    HashErased(b, no);
  }

  ghost predicate TupleFree(t: Ty)
    decreases t
  {
    match t
    case Adt(_, args) => forall i :: 0 <= i < |args| && args[i].TypeArg? ==> TupleFree(args[i].ty)
    case Tuple(_) => false
    case Other(_) => true
    case _ => TupleFree(t.inner)
  }

  /** A type without tuples, with the arguments its definitions declare. */
  ghost predicate Plain(t: Ty, arity: nat -> nat) {
    WellFormed(t, arity) && TupleFree(t)
  }

  /** The stream of a type without tuples can be parsed: it tells the type up to erasure and where it ends. */
  lemma {:induction false} HashParses(a: Ty, b: Ty, arity: nat -> nat, no: nat, s: seq<Token>, t: seq<Token>)
    requires Plain(a, arity) && Plain(b, arity) && HashTy(a, no).0 + s == HashTy(b, no).0 + t
    ensures Erase(a) == Erase(b) && s == t && HashTy(a, no).1 == HashTy(b, no).1
    decreases a, 1, 0
  {
    HashStarts(a, no, s);
    HashStarts(b, no, t);
    var u, h, h' := HashTy(a, no).0 + s, Head(a, no), Head(b, no);
    assert u[..|h|][0] == u[..|h'|][0];
    assert h == h';
    if a.Adt? {
      assert a.did == h[1].n == b.did;
      HashArgsParse(a, b, |a.args|, arity, no, s, t);
      SameElements(Erase(a).args, Erase(b).args);
    } else if !a.Other? {
      assert a.RawPtr? || a.Ref? ==> a.mutable == h[1].mutable == b.mutable;
      HashParses(a.inner, b.inner, arity, if a.Ref? then no + 1 else no, s, t);
    }
  }

  /** The head of a stream, by the kind of the type. */
  function Head(t: Ty, no: nat): (h: seq<Token>) {
    match t
    case Adt(did, _) => [Tag(0), Did(did)]
    case RawPtr(_, m) => [Tag(1), Mutability(m)]
    case Ref(_, _, m) => [Tag(2), Mutability(m), Counter(no + 1)]
    case Array(_, _) => [Tag(3)]
    case Pat(_, _) => [Tag(4)]
    case Slice(_) => [Tag(5)]
    case Tuple(_) => [Tag(6)]
    case Other(id) => [Whole(id)]
  }

  /** What follows it. */
  function Tail(t: Ty, no: nat): (s: seq<Token>) {
    match t
    case Adt(_, args) => HashArgs(t, |args|, no).0
    case RawPtr(inner, _) => HashTy(inner, no).0
    case Ref(_, inner, _) => HashTy(inner, no + 1).0
    case Array(inner, _) => HashTy(inner, no).0
    case Pat(inner, _) => HashTy(inner, no).0
    case Slice(inner) => HashTy(inner, no).0
    case Tuple(tys) => HashTys(t, |tys|, no).0
    case Other(_) => []
  }

  lemma HashStarts(t: Ty, no: nat, s: seq<Token>)
    ensures HashTy(t, no).0 + s == Head(t, no) + (Tail(t, no) + s)
    ensures |HashTy(t, no).0 + s| >= |Head(t, no)| && (HashTy(t, no).0 + s)[..|Head(t, no)|] == Head(t, no)
    ensures (HashTy(t, no).0 + s)[|Head(t, no)|..] == Tail(t, no) + s
  {
    HashSplits(t, no);
    Reassociate(HashTy(t, no).0, Head(t, no), Tail(t, no), s);
  }

  lemma HashSplits(t: Ty, no: nat)
    ensures HashTy(t, no).0 == Head(t, no) + Tail(t, no)
  {
  }

  lemma Reassociate(all: seq<Token>, h: seq<Token>, r: seq<Token>, s: seq<Token>)
    requires all == h + r
    ensures all + s == h + (r + s) && (all + s)[..|h|] == h && (all + s)[|h|..] == r + s
  {
  }

  lemma {:induction false} HashArgsParse(a: Ty, b: Ty, k: nat, arity: nat -> nat, no: nat, s: seq<Token>, t: seq<Token>)
    requires a.Adt? && b.Adt? && Plain(a, arity) && Plain(b, arity) && k <= |a.args| == |b.args|
    requires HashArgs(a, k, no).0 + s == HashArgs(b, k, no).0 + t
    ensures (forall i :: 0 <= i < k ==> EraseArg(a.args[i]) == EraseArg(b.args[i])) && s == t
    ensures HashArgs(a, k, no).1 == HashArgs(b, k, no).1
    decreases a, 0, k
  {
    if k == 0 {
      assert HashArgs(a, k, no).0 + s == s && HashArgs(b, k, no).0 + t == t;
    } else {
      var x, y, n := a.args[k - 1], b.args[k - 1], HashArgs(a, k - 1, no).1;
      var q, q' := HashArg(x, n).0, HashArg(y, HashArgs(b, k - 1, no).1).0;
      assert HashArgs(a, k - 1, no).0 + (q + s) == HashArgs(a, k, no).0 + s;
      assert HashArgs(b, k - 1, no).0 + (q' + t) == HashArgs(b, k, no).0 + t;
      HashArgsParse(a, b, k - 1, arity, no, q + s, q' + t);
      HashArgParses(x, y, arity, n, s, t);
    }
  }

  lemma {:induction false} HashArgParses(x: Arg, y: Arg, arity: nat -> nat, no: nat, s: seq<Token>, t: seq<Token>)
    requires (x.TypeArg? ==> Plain(x.ty, arity)) && (y.TypeArg? ==> Plain(y.ty, arity))
    requires HashArg(x, no).0 + s == HashArg(y, no).0 + t
    ensures EraseArg(x) == EraseArg(y) && s == t && HashArg(x, no).1 == HashArg(y, no).1
    decreases x, 0, 0
  {
    if x.TypeArg? {
      HashStarts(x.ty, no, s);
    }
    if y.TypeArg? {
      HashStarts(y.ty, no, t);
    }
    if x.TypeArg? && y.TypeArg? {
      HashParses(x.ty, y.ty, arity, no, s, t);
    } else {
      var u := HashArg(x, no).0 + s;
      assert u[0] == HashArg(x, no).0[0] == HashArg(y, no).0[0];
      assert !x.TypeArg? && !y.TypeArg?;
      assert u[1..] == s && u[1..] == t;
    }
  }

  /** Without tuples the stream is exact: types hash alike if and only if they are equal. */
  lemma HashExact(a: Ty, b: Ty, arity: nat -> nat, no: nat)
    requires Plain(a, arity) && Plain(b, arity)
    ensures HashTy(a, no).0 == HashTy(b, no).0 <==> EqTy(a, b)
  {
    if EqTy(a, b) {
      EqualTypesHashAlike(a, b, arity, no);
    } else if HashTy(a, no).0 == HashTy(b, no).0 {
      HashParses(a, b, arity, no, [], []);
      EqIsErasedEquality(a, b, arity);
    }
  }

  /** With tuples it is not: their lengths are not hashed. */
  lemma TuplesCollide(no: nat)
    ensures var a, b := Tuple([Tuple([Other(0)])]), Tuple([Tuple([]), Other(0)]);
            HashTy(a, no) == HashTy(b, no) && !EqTy(a, b)
  {
    var a, b := Tuple([Tuple([Other(0)])]), Tuple([Tuple([]), Other(0)]);
    var one, none := a.tys[0], b.tys[0];
    assert HashTys(one, 1, no).0 == [] + [Whole(0)] == [Whole(0)];
    assert HashTy(one, no).0 == [Tag(6), Whole(0)];
    assert HashTy(none, no).0 == [Tag(6)];
    assert HashTys(a, 1, no).0 == [Tag(6), Whole(0)];
    assert HashTys(b, 1, no).0 == [Tag(6)];
    assert HashTys(b, 2, no).0 == [Tag(6), Whole(0)];
  }

  // ---------------------------------------------------------------- labels

  /** How the compiler writes definitions, constants and other types. */
  datatype Names = Names(path: nat -> string, const_: nat -> string, other: nat -> string)

  function Decimal(n: nat): (s: string) {
    if n < 10 then [('0' as int + n) as char] else Decimal(n / 10) + [('0' as int + n % 10) as char]
  }

  /** `desc_ty_str`: the label and the lifetime counter afterwards. */
  function DescTy(t: Ty, no: nat, names: Names): (r: (string, nat))
    decreases t, 1, 0
  {
    match t
    case Adt(did, args) =>
      if args == [] then (names.path(did), no)
      else var (s, n) := DescArgs(t, |args|, no, names); (names.path(did) + "<" + s + ">", n)
    case RawPtr(inner, m) =>
      var (s, n) := DescTy(inner, no, names);
      ("*" + (if m then "mut" else "const") + " " + s, n)
    case Ref(_, inner, m) =>
      var (s, n) := DescTy(inner, no + 1, names);
      ("&'#" + Decimal(no) + (if m then "mut" else "") + " " + s, n)
    case Array(inner, _) => DescTy(inner, no, names)
    case Pat(inner, _) => DescTy(inner, no, names)
    case Slice(inner) => DescTy(inner, no, names)
    case Tuple(tys) => var (s, n) := DescTys(t, |tys|, no, names); ("(" + s + ")", n)
    case Other(id) => (names.other(id), no)
  }

  /** The first `k` arguments, joined by commas. */
  function DescArgs(t: Ty, k: nat, no: nat, names: Names): (r: (string, nat))
    requires t.Adt? && k <= |t.args|
    decreases t, 0, k
  {
    if k == 0 then ("", no)
    else
      var (s, n) := DescArgs(t, k - 1, no, names);
      var (q, n') := DescArg(t.args[k - 1], n, names);
      (if k == 1 then q else s + ", " + q, n')
  }

  function DescArg(a: Arg, no: nat, names: Names): (r: (string, nat))
    decreases a, 0, 0
  {
    match a
    case Lifetime(_) => ("'#" + Decimal(no), no + 1)
    case TypeArg(ty) => DescTy(ty, no, names)
    case ConstArg(c) => (names.const_(c), no)
  }

  function DescTys(t: Ty, k: nat, no: nat, names: Names): (r: (string, nat))
    requires t.Tuple? && k <= |t.tys|
    decreases t, 0, k
  {
    if k == 0 then ("", no)
    else
      var (s, n) := DescTys(t, k - 1, no, names);
      var (q, n') := DescTy(t.tys[k - 1], n, names);
      (if k == 1 then q else s + ", " + q, n')
  }

  lemma {:induction false} DescErased(t: Ty, no: nat, names: Names)
    ensures DescTy(Erase(t), no, names) == DescTy(t, no, names)
    decreases t, 1, 0
  {
    match t
    case Adt(_, args) => DescArgsErased(t, |args|, no, names);
    case RawPtr(inner, _) => DescErased(inner, no, names);
    case Ref(_, inner, _) => DescErased(inner, no + 1, names);
    case Array(inner, _) => DescErased(inner, no, names);
    case Pat(inner, _) => DescErased(inner, no, names);
    case Slice(inner) => DescErased(inner, no, names);
    case Tuple(tys) => DescTysErased(t, |tys|, no, names);
    case Other(_) =>
  }

  lemma {:induction false} DescArgsErased(t: Ty, k: nat, no: nat, names: Names)
    requires t.Adt? && k <= |t.args|
    ensures DescArgs(Erase(t), k, no, names) == DescArgs(t, k, no, names)
    decreases t, 0, k
  {
    if k > 0 {
      DescArgsErased(t, k - 1, no, names);
      var a := t.args[k - 1];
      assert Erase(t).args[k - 1] == EraseArg(a);
      if a.TypeArg? {
        DescErased(a.ty, DescArgs(t, k - 1, no, names).1, names);
      }
    }
  }

  lemma {:induction false} DescTysErased(t: Ty, k: nat, no: nat, names: Names)
    requires t.Tuple? && k <= |t.tys|
    ensures DescTys(Erase(t), k, no, names) == DescTys(t, k, no, names)
    decreases t, 0, k
  {
    if k > 0 {
      var n := DescTys(t, k - 1, no, names).1;
      DescTysErased(t, k - 1, no, names);
      assert Erase(t).Tuple? && Erase(t).tys[k - 1] == Erase(t.tys[k - 1]);
      DescErased(t.tys[k - 1], n, names);
      assert DescTy(Erase(t).tys[k - 1], n, names) == DescTy(t.tys[k - 1], n, names);
    }
  }

  /** Equal types get the same label from any starting counter. */
  lemma EqualTypesLabelAlike(a: Ty, b: Ty, arity: nat -> nat, no: nat, names: Names)
    requires WellFormed(a, arity) && WellFormed(b, arity) && EqTy(a, b)
    ensures DescTy(a, no, names) == DescTy(b, no, names)
  {
    EqIsErasedEquality(a, b, arity);
    DescErased(a, no, names);
    DescErased(b, no, names);
  }

  /** A label spelled out: lifetimes are numbered from the counter in the order they are met. */
  lemma LabelSpelled(did: nat, id: nat, names: Names)
    requires names.path(did) == "Pair" && names.other(id) == "u8"
    ensures DescTy(Ref(7, Adt(did, [Lifetime(3), TypeArg(Other(id))]), true), 0, names) == ("&'#0mut Pair<'#1, u8>", 2)
  {
    var t := Adt(did, [Lifetime(3), TypeArg(Other(id))]);
    ArgsSpelled(t, id, names);
    assert DescTy(t, 1, names).0 == "Pair" + "<" + "'#1, u8" + ">" == "Pair<'#1, u8>";
    assert Decimal(0) == "0";
    assert "&'#" + "0" + "mut" + " " + "Pair<'#1, u8>" == "&'#0mut Pair<'#1, u8>";
  }

  lemma ArgsSpelled(t: Ty, id: nat, names: Names)
    requires t.Adt? && t.args == [Lifetime(3), TypeArg(Other(id))] && names.other(id) == "u8"
    ensures DescArgs(t, 2, 1, names) == ("'#1, u8", 2)
  {
    assert Decimal(1) == "1" && "'#" + "1" == "'#1";
    assert DescArgs(t, 1, 1, names) == ("'#1", 2);
    assert DescArg(t.args[1], 2, names) == ("u8", 2);
    assert "'#1" + ", " + "u8" == "'#1, u8";
  }

  // ---------------------------------------------------------------- nodes

  datatype DepNode =
    | Api(did: nat)
    | TyNode(ty: Ty)
    | GenericParamDef(did: nat, index: nat, symbol: string, isLifetime: bool)

  predicate EqNode(a: DepNode, b: DepNode) {
    if a.TyNode? && b.TyNode? then EqTy(a.ty, b.ty) else a == b
  }

  function NodeTokens(node: DepNode): (s: seq<Token>) {
    match node
    case Api(did) => [Tag(0), Did(did)]
    case TyNode(ty) => [Tag(1)] + HashTy(ty, 0).0
    case GenericParamDef(did, index, symbol, isLifetime) =>
      [Tag(2), Did(did), Const(index), Name(symbol), Flag(isLifetime)]
  }

  /** The class of a node: its type is taken up to erasure. */
  function Class(node: DepNode): (c: DepNode) {
    if node.TyNode? then TyNode(Erase(node.ty)) else node
  }

  ghost predicate WellFormedNode(node: DepNode, arity: nat -> nat) {
    node.TyNode? ==> WellFormed(node.ty, arity)
  }

  lemma NodeClasses(a: DepNode, b: DepNode, arity: nat -> nat)
    requires WellFormedNode(a, arity) && WellFormedNode(b, arity)
    ensures EqNode(a, b) <==> Class(a) == Class(b)
    ensures EqNode(a, b) ==> NodeTokens(a) == NodeTokens(b)
  {
    if a.TyNode? && b.TyNode? {
      EqIsErasedEquality(a.ty, b.ty, arity);
      if EqTy(a.ty, b.ty) {
        EqualTypesHashAlike(a.ty, b.ty, arity, 0);
      }
    }
  }

  /** The graph's nodes and the hash map from nodes to indices: one bucket of entries per hash
      value, searched with `==`. The hash function itself is arbitrary. */
  class ApiDepGraph {
    const hash: seq<Token> -> nat
    ghost const arity: nat -> nat
    var nodes: seq<DepNode>
    var buckets: map<nat, seq<(DepNode, nat)>>

    ghost predicate Valid()
      reads this
    {
      Indexed(nodes, buckets, hash, arity)
    }

    constructor (hash: seq<Token> -> nat, ghost arity: nat -> nat)
      ensures Valid() && nodes == [] && this.hash == hash && this.arity == arity
    {
      this.hash, this.arity := hash, arity;
      nodes, buckets := [], map[];
    }

    /** The lookup in the hash map. */
    method Find(node: DepNode) returns (found: bool, index: nat)
      requires Valid() && WellFormedNode(node, arity)
      ensures found ==> index < |nodes| && Class(nodes[index]) == Class(node)
      ensures found <==> Known(nodes, node)
    {
      var h := hash(NodeTokens(node));
      var bucket := if h in buckets then buckets[h] else [];
      var k := Scan(bucket, node);
      if k < |bucket| {
        HitIsClass(nodes, buckets, hash, arity, node, k);
        found, index := true, bucket[k].1;
      } else {
        MissIsNew(nodes, buckets, hash, arity, node);
        found, index := false, 0;
      }
    }

    /** `get_node`: the index of the class of `node`, which is added once. */
    method GetNode(node: DepNode) returns (index: nat)
      requires Valid() && WellFormedNode(node, arity)
      modifies this
      ensures Valid() && index < |nodes| && Class(nodes[index]) == Class(node)
      ensures nodes == if Known(old(nodes), node) then old(nodes) else old(nodes) + [node]
    {
      var found;
      found, index := Find(node);
      if !found {
        index := |nodes|;
        var h := hash(NodeTokens(node));
        var bucket := if h in buckets then buckets[h] else [];
        IndexedInsert(nodes, buckets, hash, arity, node);
        nodes := nodes + [node];
        buckets := buckets[h := bucket + [(node, index)]];
      }
    }

    /** Any run of insertions: two insertions get one index exactly when their classes agree,
        and each class has at most one node. */
    method GetNodes(batch: seq<DepNode>) returns (indices: seq<nat>)
      requires Valid() && forall k :: 0 <= k < |batch| ==> WellFormedNode(batch[k], arity)
      modifies this
      ensures Valid() && Classes(nodes) && old(nodes) <= nodes && |indices| == |batch|
      ensures Answers(nodes, batch, indices)
      ensures forall j, k :: 0 <= j < |batch| && 0 <= k < |batch| ==>
                (indices[j] == indices[k] <==> Class(batch[j]) == Class(batch[k]))
    {
      indices := [];
      for n := 0 to |batch|
        invariant Valid() && old(nodes) <= nodes && |indices| == n
        invariant Answers(nodes, batch[..n], indices)
      {
        var index := GetNode(batch[n]);
        indices := indices + [index];
      }
      assert batch[..|batch|] == batch;
      AnswersSeparate(nodes, batch, indices);
    }
  }

  /** The first entry of a bucket that equals `node`, or the end. */
  method Scan(bucket: seq<(DepNode, nat)>, node: DepNode) returns (k: nat)
    ensures k <= |bucket| && NoneEqual(bucket[..k], node) && (k < |bucket| ==> EqNode(bucket[k].0, node))
  {
    k := 0;
    while k < |bucket| && !EqNode(bucket[k].0, node)
      invariant k <= |bucket| && NoneEqual(bucket[..k], node)
    {
      k := k + 1;
    }
  }

  ghost predicate NoneEqual(entries: seq<(DepNode, nat)>, node: DepNode) {
    forall j :: 0 <= j < |entries| ==> !EqNode(entries[j].0, node)
  }

  /** Some node of the class of `node` is there already. */
  ghost predicate Known(nodes: seq<DepNode>, node: DepNode) {
    exists i :: 0 <= i < |nodes| && Class(nodes[i]) == Class(node)
  }

  /** Each index is that of a node of the requested class. */
  ghost predicate Answers(nodes: seq<DepNode>, batch: seq<DepNode>, indices: seq<nat>) {
    |indices| == |batch|
    && forall k :: 0 <= k < |batch| ==> indices[k] < |nodes| && Class(nodes[indices[k]]) == Class(batch[k])
  }

  lemma AnswersSeparate(nodes: seq<DepNode>, batch: seq<DepNode>, indices: seq<nat>)
    requires Classes(nodes) && Answers(nodes, batch, indices)
    ensures forall j, k :: 0 <= j < |batch| && 0 <= k < |batch| ==>
              (indices[j] == indices[k] <==> Class(batch[j]) == Class(batch[k]))
  {
  }

  lemma HitIsClass(nodes: seq<DepNode>, buckets: map<nat, seq<(DepNode, nat)>>, hash: seq<Token> -> nat,
                   arity: nat -> nat,
                   node: DepNode, k: nat)
    requires Indexed(nodes, buckets, hash, arity) && WellFormedNode(node, arity)
    requires var h := hash(NodeTokens(node)); h in buckets && k < |buckets[h]| && EqNode(buckets[h][k].0, node)
    ensures var i := buckets[hash(NodeTokens(node))][k].1; i < |nodes| && Class(nodes[i]) == Class(node)
    ensures Known(nodes, node)
  {
    var i := buckets[hash(NodeTokens(node))][k].1;
    NodeClasses(nodes[i], node, arity);
  }

  /** Equal nodes have equal hashes, so a bucket without an equal key means a new class. */
  lemma MissIsNew(nodes: seq<DepNode>, buckets: map<nat, seq<(DepNode, nat)>>, hash: seq<Token> -> nat,
                  arity: nat -> nat,
                  node: DepNode)
    requires Indexed(nodes, buckets, hash, arity) && WellFormedNode(node, arity)
    requires var h := hash(NodeTokens(node));
             h in buckets ==> NoneEqual(buckets[h][..|buckets[h]|], node)
    ensures !Known(nodes, node)
  {
    forall i | 0 <= i < |nodes| ensures Class(nodes[i]) != Class(node) {
      NodeClasses(nodes[i], node, arity);
      assert Stored(buckets, hash(NodeTokens(nodes[i])), (nodes[i], i));
      NotAmong(buckets, hash(NodeTokens(nodes[i])), nodes[i], i, node);
    }
  }

  lemma NotAmong(buckets: map<nat, seq<(DepNode, nat)>>, h: nat, other: DepNode, i: nat, node: DepNode)
    requires Stored(buckets, h, (other, i))
    ensures h in buckets && (NoneEqual(buckets[h][..|buckets[h]|], node) ==> !EqNode(other, node))
  {
    var k :| 0 <= k < |buckets[h]| && buckets[h][k] == (other, i);
    assert buckets[h][..|buckets[h]|][k] == (other, i);
  }

  /** Every node is found in its bucket, and no two nodes are of one class. */
  ghost predicate Indexed(nodes: seq<DepNode>, buckets: map<nat, seq<(DepNode, nat)>>, hash: seq<Token> -> nat,
                          arity: nat -> nat) {
    && (forall i :: 0 <= i < |nodes| ==> WellFormedNode(nodes[i], arity))
    && (forall h, k :: h in buckets && 0 <= k < |buckets[h]| ==>
          (buckets[h][k].1 < |nodes| && buckets[h][k].0 == nodes[buckets[h][k].1]))
    && (forall i :: 0 <= i < |nodes| ==> Stored(buckets, hash(NodeTokens(nodes[i])), (nodes[i], i)))
    && Classes(nodes)
  }

  /** Adding a node of a new class to its bucket keeps the table. */
  lemma IndexedInsert(nodes: seq<DepNode>, buckets: map<nat, seq<(DepNode, nat)>>, hash: seq<Token> -> nat,
                      arity: nat -> nat, node: DepNode)
    requires Indexed(nodes, buckets, hash, arity) && WellFormedNode(node, arity)
    requires !Known(nodes, node)
    ensures var h := hash(NodeTokens(node));
            Indexed(nodes + [node], buckets[h := (if h in buckets then buckets[h] else []) + [(node, |nodes|)]],
                    hash, arity)
  {
    var h := hash(NodeTokens(node));
    var bucket := (if h in buckets then buckets[h] else []) + [(node, |nodes|)];
    var nodes', buckets' := nodes + [node], buckets[h := bucket];
    forall i | 0 <= i < |nodes'| ensures Stored(buckets', hash(NodeTokens(nodes'[i])), (nodes'[i], i)) {
      if i < |nodes| {
        StoredStays(buckets, hash(NodeTokens(nodes[i])), (nodes[i], i), h, (node, |nodes|));
      } else {
        assert buckets'[h][|bucket| - 1] == (node, i);
      }
    }
  }

  ghost predicate Classes(nodes: seq<DepNode>) {
    forall i, j :: 0 <= i < |nodes| && 0 <= j < |nodes| && Class(nodes[i]) == Class(nodes[j]) ==> i == j
  }

  ghost predicate Stored(buckets: map<nat, seq<(DepNode, nat)>>, h: nat, entry: (DepNode, nat)) {
    h in buckets && exists k :: 0 <= k < |buckets[h]| && buckets[h][k] == entry
  }

  lemma StoredStays(buckets: map<nat, seq<(DepNode, nat)>>, h: nat, entry: (DepNode, nat), g: nat, more: (DepNode, nat))
    requires Stored(buckets, h, entry)
    ensures Stored(buckets[g := (if g in buckets then buckets[g] else []) + [more]], h, entry)
  {
    var k :| 0 <= k < |buckets[h]| && buckets[h][k] == entry;
    var after := buckets[g := (if g in buckets then buckets[g] else []) + [more]];
    assert after[h][k] == entry;
  }
}
