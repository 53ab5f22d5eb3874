/** The ownership bits themselves: what each operation does to the vectors of the locals, which bits
    it needs to be unset, and when a run can end without a leak. No constraint is involved. */
module Holdings {
  import opened Wrappers
  import opened BitVectors
  import opened Balance
  import opened Shapes

  /** The vector of every local; a local that is not followed has none. */
  type Holding = seq<Bits>

  predicate Fitting(sh: Shape, h: Holding) {
    |h| == |sh| && forall i :: 0 <= i < |sh| ==> |h[i]| == Room(sh[i])
  }

  predicate Empty(b: Bits) {
    forall i :: 0 <= i < |b| ==> !b[i]
  }

  predicate BitAt(b: Bits, i: nat) {
    i < |b| && b[i]
  }

  function WithBit(b: Bits, i: nat, x: bool): (r: Bits)
    ensures |r| == |b|
  {
    if i < |b| then b[i := x] else b
  }

  // ---------------------------------------------------------------- one operation

  /** What an assignment or a call overwrites must be unset. */
  predicate Allows(sh: Shape, h: Holding, argCount: nat, op: Op)
    requires |h| == |sh| && InRange(op, |sh|)
  {
    match op
    case Copy(l, r, priority) => WholeProceeds(sh[l], sh[r], priority) ==> Empty(h[l])
    case Move(l, r, priority) => WholeProceeds(sh[l], sh[r], priority) ==> Empty(h[l])
    case FieldToField(l, fl, r, fr, required, layout, _, _) =>
      FieldProceeds(sh[l], sh[r], fl, fr, required, layout) && l > argCount ==> !BitAt(h[l], fl.value)
    case Call(l, required, layout, _, priority, _) => ResultTaken(sh[l], required, layout, priority) ==> Empty(h[l])
    case Drop(_, _, _) => true
    case Pass(a) => Empty(h[a])
  }

  function PassWhole(h: Holding, l: nat, r: nat, stays: bool): (h': Holding)
    requires l < |h| && r < |h|
    ensures |h'| == |h|
  {
    if stays then h[l := Zeros(|h[r]|)] else h[l := h[r]][r := Zeros(|h[r]|)]
  }

  function Neither(h: Holding, l: nat, r: nat): (h': Holding)
    requires l < |h| && r < |h|
    ensures |h'| == |h|
  {
    h[l := []][r := []]
  }

  /** Where the target of a field assignment starts from. */
  function FieldBase(x: Local, b: Bits, layout: seq<Owner>): (r: Bits) {
    if x.status == Live then b else Zeros(|layout|)
  }

  function PassBit(h: Holding, base: Bits, l: nat, fl: nat, r: nat, fr: nat, stays: bool): (h': Holding)
    requires l < |h| && r < |h|
    ensures |h'| == |h|
  {
    if stays then h[l := WithBit(base, fl, false)]
    else h[l := WithBit(base, fl, BitAt(h[r], fr))][r := WithBit(h[r], fr, false)]
  }

  /** What the result of a call owns. */
  function ResultBits(layout: seq<Owner>, pointers: Option<Bits>): (b: Bits)
    requires Joinable(LayoutBits(layout), pointers)
    ensures |b| == |layout|
  {
    LayoutAligned(layout);
    Joined(LayoutBits(layout), pointers) + Zeros(|layout| - |LayoutBits(layout)|)
  }

  function DropBits(b: Bits, kept: Bits, target: Target, recovery: bool): (b': Bits)
    ensures Dropped(b, b', kept, target, recovery)
  {
    seq(|b|, i requires 0 <= i < |b| => b[i] && !Released(i, kept, target, recovery))
  }

  /** The vectors after an operation. What a copy copies either stays or passes on. */
  function Outcome(sh: Shape, h: Holding, op: Op, stays: bool): (h': Holding)
    requires |h| == |sh| && InRange(op, |sh|)
    ensures |h'| == |h|
  {
    match op
    case Copy(l, r, priority) =>
      if WholeAbandons(sh[l], sh[r], priority) then Neither(h, l, r)
      else if WholeProceeds(sh[l], sh[r], priority) then PassWhole(h, l, r, stays) else h
    case Move(l, r, priority) =>
      if WholeAbandons(sh[l], sh[r], priority) then Neither(h, l, r)
      else if WholeProceeds(sh[l], sh[r], priority) then PassWhole(h, l, r, false) else h
    case FieldToField(l, fl, r, fr, required, layout, _, copy) =>
      if FieldAbandons(sh[l], sh[r], fl, fr) then Neither(h, l, r)
      else if FieldProceeds(sh[l], sh[r], fl, fr, required, layout)
      then PassBit(h, FieldBase(sh[l], h[l], layout), l, fl.value, r, fr.value, copy && stays) else h
    case Call(l, required, layout, pointers, priority, _) =>
      if ResultTaken(sh[l], required, layout, priority) && Joinable(LayoutBits(layout), pointers)
      then h[l := ResultBits(layout, pointers)] else h
    case Drop(u, target, recovery) =>
      if sh[u].status != Live || sh[u].len == 0 then h
      else if target == Deeper then h[u := []]
      else h[u := DropBits(h[u], ReverseBits(sh[u].layout), target, recovery)]
    case Pass(_) => h
  }

  lemma OutcomeFits(sh: Shape, h: Holding, op: Op, stays: bool)
    requires Fitting(sh, h) && InRange(op, |sh|) && Next(sh, op).Some?
    ensures Fitting(Next(sh, op).value, Outcome(sh, h, op, stays))
  {
    if op.FieldToField? {
      FieldOutcomeFits(sh, h, op, stays);
    } else if op.Copy? || op.Move? {
      WholeOutcomeFits(sh, h, op, stays);
    }
  }

  lemma WholeOutcomeFits(sh: Shape, h: Holding, op: Op, stays: bool)
    requires Fitting(sh, h) && (op.Copy? || op.Move?) && InRange(op, |sh|)
    ensures Fitting(Next(sh, op).value, Outcome(sh, h, op, stays))
  {
    var (x, y) := AssignWhole(sh[op.l], sh[op.r], op.priority);
    var h' := Outcome(sh, h, op, stays);
    assert |h'[op.l]| == Room(x) && |h'[op.r]| == Room(y);
  }

  lemma FieldOutcomeFits(sh: Shape, h: Holding, op: Op, stays: bool)
    requires Fitting(sh, h) && op.FieldToField? && InRange(op, |sh|) && Next(sh, op).Some?
    ensures Fitting(Next(sh, op).value, Outcome(sh, h, op, stays))
  {
  }

  // ---------------------------------------------------------------- runs

  /** Every local but the return place and the arguments owns nothing. */
  predicate NothingLeft(h: Holding, argCount: nat) {
    forall k :: argCount < k < |h| ==> Empty(h[k])
  }

  /** Some choice for the copies takes the run to its end without a leak. */
  predicate EndsClean(sh: Shape, h: Holding, argCount: nat, ops: seq<Op>)
    requires |h| == |sh| && AllInRange(ops, |sh|)
    decreases |ops|
  {
    if ops == [] then NothingLeft(h, argCount)
    else
      && Allows(sh, h, argCount, ops[0]) && Next(sh, ops[0]).Some?
      && (|| EndsClean(Next(sh, ops[0]).value, Outcome(sh, h, ops[0], false), argCount, ops[1..])
          || EndsClean(Next(sh, ops[0]).value, Outcome(sh, h, ops[0], true), argCount, ops[1..]))
  }

  // ---------------------------------------------------------------- conservation

  function Sum(h: Holding): (n: nat)
    decreases |h|
  {
    if h == [] then 0 else Ones(h[0]) + Sum(h[1..])
  }

  lemma {:induction false} SumUpdate(h: Holding, i: nat, b: Bits)
    requires i < |h|
    ensures Sum(h[i := b]) + Ones(h[i]) == Sum(h) + Ones(b)
    decreases i
  {
    var g := h[i := b];
    if i == 0 {
      assert g[1..] == h[1..];
    } else {
      assert g[1..] == h[1..][i - 1 := b];
      SumUpdate(h[1..], i - 1, b);
    }
  }

  lemma SumUpdateTwo(h: Holding, l: nat, b: Bits, r: nat, c: Bits)
    requires l < |h| && r < |h| && l != r
    ensures Sum(h[l := b][r := c]) + Ones(h[l]) + Ones(h[r]) == Sum(h) + Ones(b) + Ones(c)
  {
    SumUpdate(h, l, b);
    SumUpdate(h[l := b], r, c);
  }

  /** The bits that an operation takes out of the locals for good. */
  function Gone(sh: Shape, h: Holding, op: Op): (n: int)
    requires |h| == |sh| && InRange(op, |sh|)
  {
    match op
    case Copy(l, r, priority) => if WholeAbandons(sh[l], sh[r], priority) then Ones(h[l]) + Ones(h[r]) else 0
    case Move(l, r, priority) => if WholeAbandons(sh[l], sh[r], priority) then Ones(h[l]) + Ones(h[r]) else 0
    case FieldToField(l, fl, r, fr, required, layout, _, _) =>
      if FieldAbandons(sh[l], sh[r], fl, fr) then Ones(h[l]) + Ones(h[r])
      else if FieldProceeds(sh[l], sh[r], fl, fr, required, layout) && sh[l].status == Live && BitAt(h[l], fl.value)
      then 1 else 0
    case Drop(u, target, recovery) =>
      if sh[u].status != Live || sh[u].len == 0 then 0
      else if target == Deeper then Ones(h[u])
      else Ones(h[u]) - Ones(DropBits(h[u], ReverseBits(sh[u].layout), target, recovery))
    case _ => 0
  }

  lemma EmptyHoldsNothing(b: Bits)
    ensures Empty(b) <==> Ones(b) == 0
    ensures Empty(b) <==> b == Zeros(|b|)
  {
    OnesZero(b);
  }

  /** Whatever a copy chooses, bits are created by calls and go only where `Gone` says. */
  lemma Conserved(sh: Shape, h: Holding, argCount: nat, op: Op, stays: bool)
    requires Fitting(sh, h) && InRange(op, |sh|) && Next(sh, op).Some? && Allows(sh, h, argCount, op)
    ensures Sum(Outcome(sh, h, op, stays)) + Gone(sh, h, op) == Sum(h) + Made(sh, op)
  {
    match op
    case Copy(l, r, priority) => ConservedWhole(sh, h, op, stays);
    case Move(l, r, priority) => ConservedWhole(sh, h, op, stays);
    case FieldToField(_, _, _, _, _, _, _, _) => ConservedField(sh, h, op, stays);
    case Call(l, required, layout, pointers, priority, _) =>
      if ResultTaken(sh[l], required, layout, priority) {
        EmptyHoldsNothing(h[l]);
        SumUpdate(h, l, ResultBits(layout, pointers));
        ResultOnes(layout, pointers);
      }
    case Drop(u, target, recovery) =>
      SumUpdate(h, u, []);
      SumUpdate(h, u, DropBits(h[u], ReverseBits(sh[u].layout), target, recovery));
    case Pass(_) =>
  }

  lemma ResultOnes(layout: seq<Owner>, pointers: Option<Bits>)
    requires Joinable(LayoutBits(layout), pointers)
    ensures Ones(ResultBits(layout, pointers)) == Ones(Joined(LayoutBits(layout), pointers))
  {
    LayoutAligned(layout);
    ZerosHoldNothing(|layout| - |LayoutBits(layout)|);
    OnesAppend(Joined(LayoutBits(layout), pointers), Zeros(|layout| - |LayoutBits(layout)|));
  }

  lemma ConservedWhole(sh: Shape, h: Holding, op: Op, stays: bool)
    requires Fitting(sh, h) && InRange(op, |sh|) && (op.Copy? || op.Move?) && Allows(sh, h, 0, op)
    ensures Sum(Outcome(sh, h, op, stays)) + Gone(sh, h, op) == Sum(h)
  {
    var l, r := op.l, op.r;
    ZerosHoldNothing(|h[r]|);
    EmptyHoldsNothing(h[l]);
    SumUpdateTwo(h, l, [], r, []);
    SumUpdate(h, l, Zeros(|h[r]|));
    SumUpdateTwo(h, l, h[r], r, Zeros(|h[r]|));
  }

  lemma ConservedField(sh: Shape, h: Holding, op: Op, stays: bool)
    requires Fitting(sh, h) && InRange(op, |sh|) && op.FieldToField? && Next(sh, op).Some?
    ensures Sum(Outcome(sh, h, op, stays)) + Gone(sh, h, op) == Sum(h)
  {
    var l, r := op.l, op.r;
    SumUpdateTwo(h, l, [], r, []);
    if !FieldAbandons(sh[l], sh[r], op.fl, op.fr) && FieldProceeds(sh[l], sh[r], op.fl, op.fr, op.required, op.layout) {
      var base, fl, fr := FieldBase(sh[l], h[l], op.layout), op.fl.value, op.fr.value;
      ZerosHoldNothing(|op.layout|);
      assert FieldFits(sh[l], sh[r], fl, fr, op.layout, op.copy);
      OnesUpdate(base, fl, false);
      OnesUpdate(base, fl, h[r][fr]);
      OnesUpdate(h[r], fr, false);
      SumUpdate(h, l, WithBit(base, fl, false));
      SumUpdateTwo(h, l, WithBit(base, fl, BitAt(h[r], fr)), r, WithBit(h[r], fr, false));
    }
  }

  /** A drop clears at most the released bits. */
  lemma {:induction false} DropBound(b: Bits, b': Bits, kept: Bits, target: Target, recovery: bool, n: nat)
    requires Dropped(b, b', kept, target, recovery) && n <= |b|
    ensures Ones(b[..n]) <= Ones(b'[..n]) + ReleasedBelow(n, kept, target, recovery)
    decreases n
  {
    if n > 0 {
      DropBound(b, b', kept, target, recovery, n - 1);
      assert b[..n] == b[..n - 1] + [b[n - 1]] && b'[..n] == b'[..n - 1] + [b'[n - 1]];
      OnesAppend(b[..n - 1], [b[n - 1]]);
      OnesAppend(b'[..n - 1], [b'[n - 1]]);
    }
  }

  /** What the shapes alone say can go. */
  lemma GoneWithin(sh: Shape, h: Holding, argCount: nat, op: Op)
    requires Fitting(sh, h) && InRange(op, |sh|) && Allows(sh, h, argCount, op)
    ensures Gone(sh, h, op) <= Spent(sh, argCount, op)
  {
    if op.Drop? && sh[op.u].status == Live {
      var b, kept := h[op.u], ReverseBits(sh[op.u].layout);
      var b' := DropBits(b, kept, op.target, op.recovery);
      DropBound(b, b', kept, op.target, op.recovery, |b|);
      assert b[..|b|] == b && b'[..|b|] == b';
    }
  }

  /** A run that ends clean created no more than its drops can clear, its losses can swallow and the
      return place and arguments can hold. */
  lemma {:induction false} CleanWithinMeans(sh: Shape, h: Holding, argCount: nat, ops: seq<Op>)
    requires Fitting(sh, h) && argCount < |sh| && AllInRange(ops, |sh|) && EndsClean(sh, h, argCount, ops)
    ensures After(sh, ops).Some?
    ensures Sum(h) + AllMade(sh, ops) <= AllSpent(sh, argCount, ops) + Capacity(After(sh, ops).value[..argCount + 1])
    decreases |ops|
  {
    if ops == [] {
      SumPrefix(h, argCount + 1);
      SumWithinCapacity(sh[..argCount + 1], h[..argCount + 1]);
    } else {
      var t := Next(sh, ops[0]).value;
      var stays := !EndsClean(t, Outcome(sh, h, ops[0], false), argCount, ops[1..]);
      OutcomeFits(sh, h, ops[0], stays);
      Conserved(sh, h, argCount, ops[0], stays);
      GoneWithin(sh, h, argCount, ops[0]);
      CleanWithinMeans(t, Outcome(sh, h, ops[0], stays), argCount, ops[1..]);
    }
  }

  lemma {:induction false} SumPrefix(h: Holding, n: nat)
    requires n <= |h| && forall k :: n <= k < |h| ==> Empty(h[k])
    ensures Sum(h) == Sum(h[..n])
    decreases |h|
  {
    if h != [] {
      EmptyHoldsNothing(h[0]);
      if n == 0 {
        SumPrefix(h[1..], 0);
        assert h[..0] == h[1..][..0];
      } else {
        SumPrefix(h[1..], n - 1);
        assert h[..n][1..] == h[1..][..n - 1];
      }
    }
  }

  lemma {:induction false} SumWithinCapacity(sh: Shape, h: Holding)
    requires Fitting(sh, h)
    ensures Sum(h) <= Capacity(sh)
    decreases |h|
  {
    if h != [] {
      SumWithinCapacity(sh[1..], h[1..]);
    }
  }

  // ---------------------------------------------------------------- entry

  function EntryBits(x: Argument): (b: Bits)
    ensures |b| == Room(EntryLocal(x))
  {
    LayoutAligned(x.layout);
    if x.owned then LayoutBits(x.layout) + Zeros(|x.layout| - |LayoutBits(x.layout)|) else []
  }

  function EntryHolding(locals: nat, args: seq<Argument>): (h: Holding)
    requires |args| < locals
    ensures |h| == locals && Fitting(EntryShape(locals, args), h)
  {
    seq(locals, i requires 0 <= i < locals => if 1 <= i <= |args| then EntryBits(args[i - 1]) else [])
  }

  lemma EntryHoldingNext(locals: nat, args: seq<Argument>, k: nat)
    requires |args| < locals && k < |args|
    ensures EntryHolding(locals, args[..k + 1]) == EntryHolding(locals, args[..k])[k + 1 := EntryBits(args[k])]
  {
  }

  // ---------------------------------------------------------------- leaks

  predicate Names(op: Op, i: nat) {
    match op
    case Copy(l, r, _) => i == l || i == r
    case Move(l, r, _) => i == l || i == r
    case FieldToField(l, _, r, _, _, _, _, _) => i == l || i == r
    case Call(l, _, _, _, _, _) => i == l
    case Drop(u, _, _) => i == u
    case Pass(a) => i == a
  }

  /** Does nothing to bit `j` of local `i` but pass it to a call: other fields may be dropped or
      recovered, and if the layout keeps the bit, the whole may be dropped. */
  predicate Spares(op: Op, i: nat, j: nat, kept: bool) {
    Names(op, i) ==>
      || op.Pass?
      || (op.Drop? && ((op.target.Field? && op.target.index != j) || (kept && op.target != Deeper && !op.recovery)))
  }

  const FRESH: Local := Local(Unset, 0, [], 0)

  /** A bit that no operation comes to leaks: one that its layout keeps is beyond every drop, and any
      bit is beyond the drops of other fields. */
  lemma {:induction false} SparedBitLeaks(sh: Shape, h: Holding, argCount: nat, ops: seq<Op>, i: nat, j: nat)
    requires Fitting(sh, h) && AllInRange(ops, |sh|) && argCount < i < |sh| && BitAt(h[i], j)
    requires forall k :: 0 <= k < |ops| ==> Spares(ops[k], i, j, BitAt(ReverseBits(sh[i].layout), j))
    ensures !EndsClean(sh, h, argCount, ops)
    decreases |ops|
  {
    if ops != [] && Next(sh, ops[0]).Some? && Allows(sh, h, argCount, ops[0]) {
      forall stays: bool
        ensures !EndsClean(Next(sh, ops[0]).value, Outcome(sh, h, ops[0], stays), argCount, ops[1..])
      {
        OutcomeFits(sh, h, ops[0], stays);
        SparedBitStays(sh, h, argCount, ops[0], stays, i, j);
        SparedBitLeaks(Next(sh, ops[0]).value, Outcome(sh, h, ops[0], stays), argCount, ops[1..], i, j);
      }
    }
  }

  lemma SparedBitStays(sh: Shape, h: Holding, argCount: nat, op: Op, stays: bool, i: nat, j: nat)
    requires Fitting(sh, h) && InRange(op, |sh|) && i < |sh| && Next(sh, op).Some? && Allows(sh, h, argCount, op)
    requires BitAt(h[i], j) && Spares(op, i, j, BitAt(ReverseBits(sh[i].layout), j))
    ensures BitAt(Outcome(sh, h, op, stays)[i], j) && Next(sh, op).value[i].layout == sh[i].layout
  {
  }

  /** The call stores its result in a local that is assigned for the first time. */
  predicate FirstResult(sh: Shape, make: Op) {
    && make.Call? && InRange(make, |sh|) && sh[make.l].status == Unset && make.priority == Instance && make.required
    && make.layout != [] && Joinable(LayoutBits(make.layout), make.pointers)
  }

  /** So a call leaks whose layout owns a position, or which returns a pointer bit at it, that is
      spared afterwards, whatever happens to the other locals. */
  lemma CreatedBitLeaks(sh: Shape, h: Holding, argCount: nat, make: Op, rest: seq<Op>, j: nat)
    requires Fitting(sh, h) && FirstResult(sh, make) && AllInRange(rest, |sh|) && argCount < make.l
    requires BitAt(LayoutBits(make.layout), j) || (make.pointers.Some? && BitAt(make.pointers.value, j))
    requires forall k :: 0 <= k < |rest| ==> Spares(rest[k], make.l, j, BitAt(ReverseBits(make.layout), j))
    ensures AllInRange([make] + rest, |sh|) && !EndsClean(sh, h, argCount, [make] + rest)
  {
    var sh', h' := Next(sh, make).value, Outcome(sh, h, make, false);
    LayoutAligned(make.layout);
    OutcomeFits(sh, h, make, false);
    assert ResultBits(make.layout, make.pointers)[j];
    SparedBitLeaks(sh', h', argCount, rest, make.l, j);
    FirstOf(sh, h, argCount, make, rest);
  }

  /** A result with an owned position and a pointer, of which only the pointer is recovered. */
  lemma OwnerForgotten(ty: nat)
    ensures var ops := [Call(1, true, [Owned, Unowned], Some([false, true]), Instance, ty)] + [Drop(1, Field(1), true)];
            AllInRange(ops, 2) && !EndsClean([FRESH, FRESH], [[], []], 0, ops)
  {
    assert [Owned, Unowned][1..] == [Unowned];
    assert LayoutBits([Unowned]) == [false] && LayoutBits([Owned, Unowned]) == [true] + LayoutBits([Unowned]);
    CreatedBitLeaks([FRESH, FRESH], [[], []], 0, Call(1, true, [Owned, Unowned], Some([false, true]), Instance, ty),
                    [Drop(1, Field(1), true)], 0);
  }

  lemma {:induction false} OwnsNothingIff(layout: seq<Owner>)
    ensures Empty(LayoutBits(layout)) <==> forall i :: 0 <= i < |layout| ==> layout[i] != Owned
    decreases |layout|
  {
    if layout != [] {
      OwnsNothingIff(layout[1..]);
      var first: Bits := match layout[0] case Uninit => [] case Unowned => [false] case Owned => [true];
      assert LayoutBits(layout) == first + LayoutBits(layout[1..]);
      EmptyAppend(first, LayoutBits(layout[1..]));
      assert (forall i :: 0 <= i < |layout[1..]| ==> layout[1..][i] != Owned) <==>
             forall i :: 1 <= i < |layout| ==> layout[i] != Owned by {
        assert forall i :: 1 <= i < |layout| ==> layout[i] == layout[1..][i - 1];
      }
    }
  }

  lemma EmptyAppend(a: Bits, b: Bits)
    ensures Empty(a + b) <==> Empty(a) && Empty(b)
  {
    if Empty(a + b) {
      assert forall i :: 0 <= i < |a| ==> a[i] == (a + b)[i];
      assert forall i :: 0 <= i < |b| ==> b[i] == (a + b)[|a| + i];
    }
  }

  /** The call creates nothing: its layout owns nothing and no pointer bit is set. */
  predicate MakesNothing(make: Op)
    requires make.Call?
  {
    && (forall i :: 0 <= i < |make.layout| ==> make.layout[i] != Owned)
    && (make.pointers.Some? ==> Empty(make.pointers.value))
  }

  lemma ResultEmptyIff(make: Op)
    requires make.Call? && Joinable(LayoutBits(make.layout), make.pointers)
    ensures Empty(ResultBits(make.layout, make.pointers)) <==> MakesNothing(make)
  {
    var bits := LayoutBits(make.layout);
    LayoutAligned(make.layout);
    OwnsNothingIff(make.layout);
    EmptyAppend(Joined(bits, make.pointers), Zeros(|make.layout| - |bits|));
    assert Empty(Zeros(|make.layout| - |bits|));
    if make.pointers.Some? {
      assert forall i :: 0 <= i < |bits| ==> (Joined(bits, make.pointers)[i] <==> bits[i] || make.pointers.value[i]);
    }
  }

  /** A local that no operation names does not matter, as long as it is empty. */
  lemma {:induction false} UnnamedFrame(sh: Shape, h: Holding, argCount: nat, ops: seq<Op>, l: nat, x: Local, b: Bits)
    requires |h| == |sh| && AllInRange(ops, |sh|) && l < |sh| && Empty(b) && Empty(h[l])
    requires forall k :: 0 <= k < |ops| ==> !Names(ops[k], l)
    ensures EndsClean(sh[l := x], h[l := b], argCount, ops) <==> EndsClean(sh, h, argCount, ops)
    decreases |ops|
  {
    if ops == [] {
      assert forall k :: 0 <= k < |h| && k != l ==> h[l := b][k] == h[k];
      assert forall k :: 0 <= k < |h| ==> (Empty(h[l := b][k]) <==> Empty(h[k]));
    } else {
      UnnamedStep(sh, h, argCount, ops[0], l, x, b);
      UnnamedOutcome(sh, h, ops[0], l, x, b);
      if Next(sh, ops[0]).Some? {
        UnnamedFrame(Next(sh, ops[0]).value, Outcome(sh, h, ops[0], false), argCount, ops[1..], l, x, b);
        UnnamedFrame(Next(sh, ops[0]).value, Outcome(sh, h, ops[0], true), argCount, ops[1..], l, x, b);
      }
    }
  }

  lemma UnnamedStep(sh: Shape, h: Holding, argCount: nat, op: Op, l: nat, x: Local, b: Bits)
    requires |h| == |sh| && InRange(op, |sh|) && l < |sh| && !Names(op, l)
    ensures Next(sh[l := x], op).Some? <==> Next(sh, op).Some?
    ensures Next(sh, op).Some? ==> Next(sh[l := x], op).value == Next(sh, op).value[l := x]
    ensures Allows(sh[l := x], h[l := b], argCount, op) <==> Allows(sh, h, argCount, op)
  {
  }

  lemma UnnamedOutcome(sh: Shape, h: Holding, op: Op, l: nat, x: Local, b: Bits)
    requires |h| == |sh| && InRange(op, |sh|) && l < |sh| && !Names(op, l)
    ensures forall stays: bool :: Outcome(sh[l := x], h[l := b], op, stays) == Outcome(sh, h, op, stays)[l := b]
    ensures forall stays: bool :: Outcome(sh, h, op, stays)[l] == h[l]
  {
    forall stays: bool ensures Outcome(sh[l := x], h[l := b], op, stays) == Outcome(sh, h, op, stays)[l := b] {
      if op.FieldToField? {
        UnnamedField(sh, h, op, stays, l, x, b);
      }
    }
  }

  lemma UnnamedField(sh: Shape, h: Holding, op: Op, stays: bool, l: nat, x: Local, b: Bits)
    requires |h| == |sh| && InRange(op, |sh|) && op.FieldToField? && l < |sh| && !Names(op, l)
    ensures Outcome(sh[l := x], h[l := b], op, stays) == Outcome(sh, h, op, stays)[l := b]
  {
  }

  /** A result that nothing touches afterwards: the run ends clean exactly when it does without the
      call and the call creates nothing. */
  lemma UntouchedResultIff(sh: Shape, h: Holding, argCount: nat, make: Op, rest: seq<Op>)
    requires Fitting(sh, h) && FirstResult(sh, make) && AllInRange(rest, |sh|) && argCount < make.l
    requires forall k :: 0 <= k < |rest| ==> !Names(rest[k], make.l)
    ensures AllInRange([make] + rest, |sh|)
    ensures EndsClean(sh, h, argCount, [make] + rest) <==> EndsClean(sh, h, argCount, rest) && MakesNothing(make)
  {
    var b := ResultBits(make.layout, make.pointers);
    var sh' := Next(sh, make).value;
    FirstOf(sh, h, argCount, make, rest);
    ResultEmptyIff(make);
    if Empty(b) {
      UnnamedFrame(sh, h, argCount, rest, make.l, sh'[make.l], b);
    } else {
      var j :| 0 <= j < |b| && b[j];
      OutcomeFits(sh, h, make, false);
      SparedBitLeaks(sh', Outcome(sh, h, make, false), argCount, rest, make.l, j);
    }
  }

  /** Recovered as a whole, a result leaves nothing behind, whatever it owned. */
  lemma RecoveredIff(sh: Shape, h: Holding, argCount: nat, make: Op, rest: seq<Op>)
    requires Fitting(sh, h) && FirstResult(sh, make) && AllInRange(rest, |sh|) && argCount < make.l
    requires forall k :: 0 <= k < |rest| ==> !Names(rest[k], make.l)
    ensures AllInRange([make] + ([Drop(make.l, Whole, true)] + rest), |sh|)
    ensures EndsClean(sh, h, argCount, [make] + ([Drop(make.l, Whole, true)] + rest)) <==>
            EndsClean(sh, h, argCount, rest)
  {
    var l, drop := make.l, Drop(make.l, Whole, true);
    var sh', h' := Next(sh, make).value, Outcome(sh, h, make, false);
    OutcomeFits(sh, h, make, false);
    var b := DropBits(h'[l], ReverseBits(sh'[l].layout), Whole, true);
    assert Next(sh', drop).value == sh' && Outcome(sh', h', drop, false) == h'[l := b];
    FirstOf(sh', h', argCount, drop, rest);
    FirstOf(sh, h, argCount, make, [drop] + rest);
    assert sh' == sh[l := sh'[l]] && h'[l := b] == h[l := b];
    UnnamedFrame(sh, h, argCount, rest, l, sh'[l], b);
  }

  /** A pointer in one local and a value handed on and dropped in others: the drops of the others
      say nothing about the pointer. */
  lemma StrandedPointer(ty: nat)
    ensures var ops := [Call(1, true, [Unowned], Some([true]), Instance, ty)]
                       + [Call(2, true, [Owned], None, Instance, ty), Move(3, 2, Instance), Drop(2, Whole, false),
                          Drop(3, Whole, false)];
            AllInRange(ops, 4) && !EndsClean([FRESH, FRESH, FRESH, FRESH], [[], [], [], []], 0, ops)
  {
    assert LayoutBits([Unowned]) == [false] && ReverseBits([Unowned]) == [true];
    assert ResultBits([Unowned], Some([true])) == [true];
    CreatedBitLeaks([FRESH, FRESH, FRESH, FRESH], [[], [], [], []], 0,
                    Call(1, true, [Unowned], Some([true]), Instance, ty),
                    [Call(2, true, [Owned], None, Instance, ty), Move(3, 2, Instance), Drop(2, Whole, false),
                     Drop(3, Whole, false)], 0);
  }

  /** The value in local `k` is moved on to the next local, `n` times. */
  function Moves(k: nat, n: nat): (ops: seq<Op>)
    ensures |ops| == n && AllInRange(ops, k + n + 1)
    decreases n
  {
    if n == 0 then [] else [Move(k + 1, k, Instance)] + Moves(k + 1, n - 1)
  }

  /** Only local `k` has anything: a value of the given layout with the bits `b`. */
  predicate OnlyAt(sh: Shape, h: Holding, k: nat, layout: seq<Owner>, b: Bits) {
    && Fitting(sh, h) && k < |sh| && sh[k].status == Live && sh[k].layout == layout && h[k] == b && |b| > 0
    && (forall i :: 0 <= i < |h| && i != k ==> Empty(h[i]))
    && (forall i :: k < i < |sh| ==> sh[i].status == Unset)
  }

  lemma MovedOn(sh: Shape, h: Holding, k: nat, layout: seq<Owner>, b: Bits)
    requires OnlyAt(sh, h, k, layout, b) && k + 1 < |sh|
    ensures var op := Move(k + 1, k, Instance);
            && Next(sh, op).Some? && Allows(sh, h, 0, op) && Outcome(sh, h, op, false) == Outcome(sh, h, op, true)
            && OnlyAt(Next(sh, op).value, Outcome(sh, h, op, false), k + 1, layout, b)
  {
    OutcomeFits(sh, h, Move(k + 1, k, Instance), false);
  }

  lemma DroppedAtOnce(sh: Shape, h: Holding, k: nat, layout: seq<Owner>, b: Bits)
    requires OnlyAt(sh, h, k, layout, b) && 0 < k && |ReverseBits(layout)| <= 63
    ensures EndsClean(sh, h, 0, [Drop(k, Whole, false)] + []) <==>
            Empty(DropBits(b, ReverseBits(layout), Whole, false))
  {
    var b' := DropBits(b, ReverseBits(layout), Whole, false);
    FirstOf(sh, h, 0, Drop(k, Whole, false), []);
    assert h[k := b'][k] == b';
  }

  /** Handed on any number of times and then dropped, a value ends clean exactly when the drop
      releases all its bits. */
  lemma {:induction false} HandedOn(sh: Shape, h: Holding, k: nat, n: nat, layout: seq<Owner>, b: Bits)
    requires OnlyAt(sh, h, k, layout, b) && 0 < k && k + n < |sh| && |ReverseBits(layout)| <= 63
    ensures AllInRange(Moves(k, n) + [Drop(k + n, Whole, false)], |sh|)
    ensures EndsClean(sh, h, 0, Moves(k, n) + [Drop(k + n, Whole, false)]) <==>
            Empty(DropBits(b, ReverseBits(layout), Whole, false))
    decreases n
  {
    var ops := Moves(k, n) + [Drop(k + n, Whole, false)];
    assert AllInRange(ops, |sh|);
    if n == 0 {
      assert ops == [Drop(k, Whole, false)] + [];
      DroppedAtOnce(sh, h, k, layout, b);
    } else {
      var op := Move(k + 1, k, Instance);
      assert ops == [op] + (Moves(k + 1, n - 1) + [Drop(k + n, Whole, false)]);
      var sh', h' := Next(sh, op).value, Outcome(sh, h, op, false);
      MovedOn(sh, h, k, layout, b);
      HandedOn(sh', h', k + 1, n - 1, layout, b);
      FirstOf(sh, h, 0, op, Moves(k + 1, n - 1) + [Drop(k + n, Whole, false)]);
    }
  }

  /** The result of a call, handed on any number of times and then dropped, leaks exactly when the
      call returned a pointer bit where the layout owns nothing. */
  lemma ResultLeaksIff(sh: Shape, h: Holding, make: Op, n: nat)
    requires Fitting(sh, h) && n + 2 <= |sh| && (forall i :: 0 <= i < |sh| ==> sh[i] == FRESH)
    requires make.Call? && make.l == 1 && make.required && make.priority == Instance && make.layout != []
    requires forall i :: 0 <= i < |make.layout| ==> make.layout[i] != Uninit
    requires Joinable(LayoutBits(make.layout), make.pointers)
    ensures var ops := [make] + (Moves(1, n) + [Drop(1 + n, Whole, false)]);
            AllInRange(ops, |sh|) && (!EndsClean(sh, h, 0, ops) <==> PointerUnowned(make.layout, make.pointers))
  {
    LayoutAligned(make.layout);
    ResultArrives(sh, h, make);
    HandedOn(Next(sh, make).value, Outcome(sh, h, make, false), 1, n, make.layout,
             ResultBits(make.layout, make.pointers));
    FirstOf(sh, h, 0, make, Moves(1, n) + [Drop(1 + n, Whole, false)]);
    ResultKeepsIff(make.layout, make.pointers);
  }

  predicate PointerUnowned(layout: seq<Owner>, pointers: Option<Bits>) {
    exists i :: 0 <= i < |layout| && layout[i] == Unowned && pointers.Some? && BitAt(pointers.value, i)
  }

  lemma ResultArrives(sh: Shape, h: Holding, make: Op)
    requires Fitting(sh, h) && make.Call? && make.l == 1 < |sh| && (forall i :: 0 <= i < |sh| ==> sh[i] == FRESH)
    requires make.required && make.priority == Instance && make.layout != []
    requires Joinable(LayoutBits(make.layout), make.pointers)
    ensures Next(sh, make).Some? && Allows(sh, h, 0, make) && Outcome(sh, h, make, false) == Outcome(sh, h, make, true)
    ensures OnlyAt(Next(sh, make).value, Outcome(sh, h, make, false), 1, make.layout,
                   ResultBits(make.layout, make.pointers))
  {
    OutcomeFits(sh, h, make, false);
  }

  lemma FirstOf(sh: Shape, h: Holding, argCount: nat, op: Op, rest: seq<Op>)
    requires |h| == |sh| && InRange(op, |sh|) && AllInRange(rest, |sh|) && Next(sh, op).Some?
    requires Allows(sh, h, argCount, op) && Outcome(sh, h, op, false) == Outcome(sh, h, op, true)
    ensures AllInRange([op] + rest, |sh|)
    ensures EndsClean(sh, h, argCount, [op] + rest) <==>
            EndsClean(Next(sh, op).value, Outcome(sh, h, op, false), argCount, rest)
  {
    assert ([op] + rest)[1..] == rest;
  }

  /** A drop leaves exactly the pointer bits of positions that the layout does not own. */
  lemma ResultKeepsIff(layout: seq<Owner>, pointers: Option<Bits>)
    requires (forall i :: 0 <= i < |layout| ==> layout[i] != Uninit) && Joinable(LayoutBits(layout), pointers)
    ensures !Empty(DropBits(ResultBits(layout, pointers), ReverseBits(layout), Whole, false)) <==>
            PointerUnowned(layout, pointers)
  {
    var b' := DropBits(ResultBits(layout, pointers), ReverseBits(layout), Whole, false);
    forall i | 0 <= i < |layout|
      ensures b'[i] <==> layout[i] == Unowned && pointers.Some? && BitAt(pointers.value, i)
    {
      LayoutAligned(layout);
      assert ResultBits(layout, pointers)[i] == Joined(LayoutBits(layout), pointers)[i];
    }
    if !Empty(b') {
      var i :| 0 <= i < |b'| && b'[i];
      assert layout[i] == Unowned;
    }
  }
}
