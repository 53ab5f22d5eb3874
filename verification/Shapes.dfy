/** What the handlers decide without looking at a solution: which locals are followed, with which
    lengths, layouts and types. A run of operations can be followed on these shapes alone, and
    they bound what the run may clear or give up. */
module Shapes {
  import opened Wrappers
  import opened BitVectors
  import opened Constraints
  import opened Balance

  datatype Status = Unset | Live | GivenUp

  datatype Local = Local(status: Status, len: nat, layout: seq<Owner>, ty: nat)

  type Shape = seq<Local>

  datatype Op =
    | Copy(l: nat, r: nat, priority: Priority)
    | Move(l: nat, r: nat, priority: Priority)
    | FieldToField(l: nat, fl: Option<nat>, r: nat, fr: Option<nat>,
                   required: bool, layout: seq<Owner>, ty: nat, copy: bool)
    | Call(l: nat, required: bool, layout: seq<Owner>, pointers: Option<Bits>, priority: Priority, ty: nat)
    | Drop(u: nat, target: Target, recovery: bool)
    | Pass(a: nat)

  /** Assignments are between distinct locals. */
  predicate InRange(op: Op, locals: nat) {
    match op
    case Copy(l, r, _) => l < locals && r < locals && l != r
    case Move(l, r, _) => l < locals && r < locals && l != r
    case FieldToField(l, _, r, _, _, _, _, _) => l < locals && r < locals && l != r
    case Call(l, _, _, _, _, _) => l < locals
    case Drop(u, _, _) => u < locals
    case Pass(a) => a < locals
  }

  predicate AllInRange(ops: seq<Op>, locals: nat) {
    forall k :: 0 <= k < |ops| ==> InRange(ops[k], locals)
  }

  // ---------------------------------------------------------------- one step

  function Abandon(x: Local): (y: Local) {
    if x.status == GivenUp then x else x.(status := GivenUp, len := 0)
  }

  /** Whether a whole-value assignment from `y` to `x` goes ahead. */
  predicate WholeProceeds(x: Local, y: Local, priority: Priority) {
    && x.status != GivenUp && y.status == Live && y.len != 0
    && (if x.status == Live then x.ty == y.ty else priority == Instance)
  }

  /** Whether it makes both sides unsupported. */
  predicate WholeAbandons(x: Local, y: Local, priority: Priority) {
    || x.status == GivenUp || y.status == GivenUp
    || (y.status == Live && y.len != 0 && (if x.status == Live then x.ty != y.ty else priority == Unidentified))
  }

  /** The first assignment takes over type and layout, later ones only the length. */
  function AssignWhole(x: Local, y: Local, priority: Priority): (r: (Local, Local)) {
    if WholeAbandons(x, y, priority) then (Abandon(x), Abandon(y))
    else if !WholeProceeds(x, y, priority) then (x, y)
    else if x.status == Live then (x.(len := y.len), y)
    else (y, y)
  }

  predicate FieldAbandons(x: Local, y: Local, fl: Option<nat>, fr: Option<nat>) {
    x.status == GivenUp || y.status == GivenUp || (y.status == Live && (fl == None || fr == None))
  }

  predicate FieldProceeds(x: Local, y: Local, fl: Option<nat>, fr: Option<nat>, required: bool, layout: seq<Owner>) {
    && x.status != GivenUp && y.status == Live && fl.Some? && fr.Some?
    && required && layout != [] && y.len != 0
  }

  /** Whether a field-to-field assignment that goes ahead meets no index out of range, no vector
      of another length than the layout's, and no overflow. (A move into a longer vector would
      only cut off its upper bits; it counts as a misfit here.) */
  predicate FieldFits(x: Local, y: Local, fl: nat, fr: nat, layout: seq<Owner>, copy: bool) {
    && fl < |layout| && fr < y.len <= 63 && (copy ==> |layout| <= 63)
    && (x.status == Live ==> x.len == |layout|)
  }

  function AssignField(x: Local, y: Local, fl: Option<nat>, fr: Option<nat>, required: bool, layout: seq<Owner>,
                       ty: nat,
                       copy: bool): (r: Option<(Local, Local)>)
  {
    if FieldAbandons(x, y, fl, fr) then Some((Abandon(x), Abandon(y)))
    else if y.status != Live || !required || layout == [] then Some((x, y))
    else if y.len == 0 then
      if x.status == Live && x.len != |layout| then None else Some((x.(len := |layout|), y))
    else if !FieldFits(x, y, fl.value, fr.value, layout, copy) then None
    else if x.status == Live then Some((x, y))
    else Some((Local(Live, |layout|, layout, ty), y))
  }

  /** Whether the result of a call is tracked. */
  predicate ResultTaken(x: Local, required: bool, layout: seq<Owner>, priority: Priority) {
    x.status != GivenUp && required && layout != [] && (x.status == Live || priority == Instance)
  }

  function TakeResult(x: Local, required: bool, layout: seq<Owner>, pointers: Option<Bits>, priority: Priority, ty: nat)
    : (r: Option<Local>)
  {
    if x.status == GivenUp || !required || layout == [] then Some(x)
    else if !Joinable(LayoutBits(layout), pointers) then None
    else if x.status == Live then Some(x.(len := |layout|))
    else match priority
         case Unidentified => Some(Abandon(x))
         case Ignored => Some(x)
         case Instance => Some(Local(Live, |layout|, layout, ty))
  }

  function AfterDrop(x: Local, target: Target, recovery: bool): (r: Option<Local>) {
    if x.status != Live || x.len == 0 then Some(x)
    else if target == Deeper then Some(Abandon(x))
    else if Droppable(x.len, ReverseBits(x.layout), target, recovery) then Some(x)
    else None
  }

  /** The shape after one operation; `None` where the source panics. */
  function Next(sh: Shape, op: Op): (r: Option<Shape>)
    requires InRange(op, |sh|)
    ensures r.Some? ==> |r.value| == |sh|
  {
    match op
    case Copy(l, r, priority) =>
      var (x, y) := AssignWhole(sh[l], sh[r], priority);
      Some(sh[l := x][r := y])
    case Move(l, r, priority) =>
      var (x, y) := AssignWhole(sh[l], sh[r], priority);
      Some(sh[l := x][r := y])
    case FieldToField(l, fl, r, fr, required, layout, ty, copy) =>
      (match AssignField(sh[l], sh[r], fl, fr, required, layout, ty, copy)
       case None => None
       case Some(xy) => Some(sh[l := xy.0][r := xy.1]))
    case Call(l, required, layout, pointers, priority, ty) =>
      (match TakeResult(sh[l], required, layout, pointers, priority, ty)
       case None => None
       case Some(x) => Some(sh[l := x]))
    case Drop(u, target, recovery) =>
      (match AfterDrop(sh[u], target, recovery)
       case None => None
       case Some(x) => Some(sh[u := x]))
    case Pass(_) => Some(sh)
  }

  // ---------------------------------------------------------------- what a step can do to ownership

  /** The bits a call creates. */
  function Made(sh: Shape, op: Op): (n: nat)
    requires InRange(op, |sh|)
  {
    if op.Call? && ResultTaken(sh[op.l], op.required, op.layout, op.priority)
       && Joinable(LayoutBits(op.layout), op.pointers)
    then Ones(Joined(LayoutBits(op.layout), op.pointers)) else 0
  }

  function Room(x: Local): (n: nat) {
    if x.status == Live then x.len else 0
  }

  /** The operation gives up no followed local and overwrites no bit of the return place or an argument. */
  predicate Keeps(sh: Shape, argCount: nat, op: Op)
    requires InRange(op, |sh|)
  {
    match op
    case Copy(l, r, priority) => WholeAbandons(sh[l], sh[r], priority) ==> sh[l].status != Live && sh[r].status != Live
    case Move(l, r, priority) => WholeAbandons(sh[l], sh[r], priority) ==> sh[l].status != Live && sh[r].status != Live
    case FieldToField(l, fl, r, fr, required, layout, _, _) =>
      && (FieldAbandons(sh[l], sh[r], fl, fr) ==> sh[l].status != Live && sh[r].status != Live)
      && (FieldProceeds(sh[l], sh[r], fl, fr, required, layout) && sh[l].status == Live ==> l > argCount)
    case Drop(u, target, _) => sh[u].status == Live && sh[u].len != 0 ==> target != Deeper
    case _ => true
  }

  /** The most bits the operation can give up. */
  function Losable(sh: Shape, argCount: nat, op: Op): (n: nat)
    requires InRange(op, |sh|)
  {
    if Keeps(sh, argCount, op) then 0
    else match op
         case Copy(l, r, _) => Room(sh[l]) + Room(sh[r])
         case Move(l, r, _) => Room(sh[l]) + Room(sh[r])
         case FieldToField(l, fl, r, fr, _, _, _, _) =>
           if FieldAbandons(sh[l], sh[r], fl, fr) then Room(sh[l]) + Room(sh[r]) else 1
         case Drop(u, _, _) => Room(sh[u])
         case _ => 0
  }

  /** How many of the first `n` bits a drop releases. */
  function ReleasedBelow(n: nat, kept: Bits, target: Target, recovery: bool): (c: nat) {
    if n == 0 then 0
    else ReleasedBelow(n - 1, kept, target, recovery) + (if Released(n - 1, kept, target, recovery) then 1 else 0)
  }

  /** The most bits the operation can clear. */
  function Releasable(sh: Shape, op: Op): (n: nat)
    requires InRange(op, |sh|)
  {
    if op.Drop? && sh[op.u].status == Live
    then ReleasedBelow(sh[op.u].len, ReverseBits(sh[op.u].layout), op.target, op.recovery) else 0
  }

  function Spent(sh: Shape, argCount: nat, op: Op): (n: nat)
    requires InRange(op, |sh|)
  {
    Losable(sh, argCount, op) + Releasable(sh, op)
  }

  // ---------------------------------------------------------------- entry

  datatype Argument = Argument(owned: bool, layout: seq<Owner>, ty: nat)

  predicate Fits(x: Argument) {
    x.owned ==> |LayoutBits(x.layout)| <= 63
  }

  /** An owned argument is followed, without a layout of its own; any other is given up. */
  function EntryLocal(x: Argument): (l: Local) {
    if x.owned then Local(Live, |x.layout|, [], x.ty) else Local(GivenUp, 0, [], 0)
  }

  /** The arguments follow the return place. */
  function EntryShape(locals: nat, args: seq<Argument>): (sh: Shape)
    requires |args| < locals
    ensures |sh| == locals
  {
    seq(locals, i requires 0 <= i < locals =>
          if 1 <= i <= |args| then EntryLocal(args[i - 1]) else Local(Unset, 0, [], 0))
  }

  function EntryMade(args: seq<Argument>): (n: nat)
    decreases |args|
  {
    if args == [] then 0
    else EntryMade(args[..|args| - 1])
         + (if args[|args| - 1].owned then Ones(LayoutBits(args[|args| - 1].layout)) else 0)
  }

  lemma EntryNext(locals: nat, args: seq<Argument>, k: nat)
    requires |args| < locals && k < |args|
    ensures EntryShape(locals, args[..k + 1]) == EntryShape(locals, args[..k])[k + 1 := EntryLocal(args[k])]
    ensures EntryMade(args[..k + 1])
            == EntryMade(args[..k]) + (if args[k].owned then Ones(LayoutBits(args[k].layout)) else 0)
  {
    assert args[..k + 1][..k] == args[..k];
  }

  // ---------------------------------------------------------------- runs

  /** The shape after a run; `None` where the source panics on the way. */
  function After(sh: Shape, ops: seq<Op>): (r: Option<Shape>)
    requires AllInRange(ops, |sh|)
    ensures r.Some? ==> |r.value| == |sh|
    decreases |ops|
  {
    if ops == [] then Some(sh)
    else match Next(sh, ops[0])
         case None => None
         case Some(t) => After(t, ops[1..])
  }

  function AllMade(sh: Shape, ops: seq<Op>): (n: nat)
    requires AllInRange(ops, |sh|)
    decreases |ops|
  {
    if ops == [] || Next(sh, ops[0]) == None then 0
    else Made(sh, ops[0]) + AllMade(Next(sh, ops[0]).value, ops[1..])
  }

  function AllSpent(sh: Shape, argCount: nat, ops: seq<Op>): (n: nat)
    requires AllInRange(ops, |sh|)
    decreases |ops|
  {
    if ops == [] || Next(sh, ops[0]) == None then 0
    else Spent(sh, argCount, ops[0]) + AllSpent(Next(sh, ops[0]).value, argCount, ops[1..])
  }

  predicate AllKeep(sh: Shape, argCount: nat, ops: seq<Op>)
    requires AllInRange(ops, |sh|)
    decreases |ops|
  {
    ops != [] && Next(sh, ops[0]).Some? ==>
      Keeps(sh, argCount, ops[0]) && AllKeep(Next(sh, ops[0]).value, argCount, ops[1..])
  }

  /** What the locals can hold. */
  function Capacity(sh: Shape): (n: nat)
    decreases |sh|
  {
    if sh == [] then 0 else Room(sh[0]) + Capacity(sh[1..])
  }

  // ---------------------------------------------------------------- when nothing is lost or cleared

  lemma {:induction false} GivenUpStays(sh: Shape, ops: seq<Op>, i: nat)
    requires AllInRange(ops, |sh|) && i < |sh| && sh[i].status == GivenUp && After(sh, ops).Some?
    ensures After(sh, ops).value[i].status == GivenUp
    decreases |ops|
  {
    if ops != [] {
      GivenUpStays(Next(sh, ops[0]).value, ops[1..], i);
    }
  }

  /** If no local is unsupported at the end and no field of the return place or an argument is
      assigned, nothing was given up on the way. */
  lemma {:induction false} NoneGivenUpKeepsAll(sh: Shape, argCount: nat, ops: seq<Op>)
    requires AllInRange(ops, |sh|) && After(sh, ops).Some?
    requires forall i :: 0 <= i < |sh| ==> After(sh, ops).value[i].status != GivenUp
    requires forall k :: 0 <= k < |ops| && ops[k].FieldToField? ==> ops[k].l > argCount
    ensures AllKeep(sh, argCount, ops)
    decreases |ops|
  {
    if ops != [] {
      var t := Next(sh, ops[0]).value;
      if !Keeps(sh, argCount, ops[0]) {
        var i := if ops[0].Drop? then ops[0].u else ops[0].l;
        assert t[i].status == GivenUp;
        GivenUpStays(t, ops[1..], i);
      }
      NoneGivenUpKeepsAll(t, argCount, ops[1..]);
    }
  }

  /** Whole values pass only between locals of one type: after an assignment from a followed local
      that is not empty, both sides are given up, or the target is followed with the source's
      length and type, or it is new and of a type without anything to track. */
  lemma AssignedOfOneType(sh: Shape, op: Op)
    requires (op.Copy? || op.Move?) && InRange(op, |sh|) && sh[op.r].status == Live && sh[op.r].len != 0
    ensures Next(sh, op).Some?
    ensures var t := Next(sh, op).value;
            || (t[op.l].status == GivenUp && t[op.r].status == GivenUp)
            || (t[op.l].status == Live && t[op.l].ty == sh[op.r].ty && t[op.l].len == sh[op.r].len
                && t[op.r] == sh[op.r])
            || (t == sh && sh[op.l].status == Unset && op.priority == Ignored)
    ensures sh[op.l].status == Live && sh[op.l].ty != sh[op.r].ty ==> Next(sh, op).value[op.r].status == GivenUp
    ensures sh[op.l].status == Unset && op.priority == Unidentified ==> Next(sh, op).value[op.r].status == GivenUp
    ensures sh[op.l].status == Live && sh[op.l].ty == sh[op.r].ty ==> Next(sh, op).value[op.l].status == Live
    ensures sh[op.l].status == Unset && op.priority == Instance ==> Next(sh, op).value[op.l] == sh[op.r]
  {
  }

  /** Only a first assignment gives a local its layout: one that is followed or given up keeps
      the layout it has. */
  lemma {:induction false} LayoutStays(sh: Shape, ops: seq<Op>, a: nat)
    requires AllInRange(ops, |sh|) && a < |sh| && sh[a].status != Unset && After(sh, ops).Some?
    ensures After(sh, ops).value[a].status != Unset && After(sh, ops).value[a].layout == sh[a].layout
    decreases |ops|
  {
    if ops != [] {
      LayoutStays(Next(sh, ops[0]).value, ops[1..], a);
    }
  }

  /** Every drop is without recovery, of a followed local whose layout owns nothing and has the
      vector's length. */
  predicate Idle(sh: Shape, ops: seq<Op>)
    requires AllInRange(ops, |sh|)
    decreases |ops|
  {
    ops != [] && Next(sh, ops[0]).Some? ==>
      && (ops[0].Drop? ==> !ops[0].recovery && Unowning(sh[ops[0].u]))
      && Idle(Next(sh, ops[0]).value, ops[1..])
  }

  predicate Unowning(x: Local) {
    |x.layout| == x.len && forall i :: 0 <= i < |x.layout| ==> x.layout[i] == Unowned
  }

  /** A drop without recovery releases nothing if, and for a whole local only if, the layout
      owns nothing. */
  lemma {:induction false} ReleasesNothingIff(layout: seq<Owner>, target: Target, n: nat)
    requires n <= |layout| && forall i :: 0 <= i < |layout| ==> layout[i] != Uninit
    ensures (forall i :: 0 <= i < n ==> layout[i] == Unowned) ==>
              ReleasedBelow(n, ReverseBits(layout), target, false) == 0
    ensures ReleasedBelow(n, ReverseBits(layout), Whole, false) == 0 ==> forall i :: 0 <= i < n ==> layout[i] == Unowned
    decreases n
  {
    LayoutAligned(layout);
    if n > 0 {
      ReleasesNothingIff(layout, target, n - 1);
    }
  }

  /** Such drops clear nothing, so a run that also keeps everything spends nothing. */
  lemma {:induction false} IdleSpendsNothing(sh: Shape, argCount: nat, ops: seq<Op>)
    requires AllInRange(ops, |sh|) && Idle(sh, ops) && AllKeep(sh, argCount, ops)
    ensures AllSpent(sh, argCount, ops) == 0
    decreases |ops|
  {
    if ops != [] && Next(sh, ops[0]).Some? {
      if ops[0].Drop? {
        ReleasesNothingIff(sh[ops[0].u].layout, ops[0].target, sh[ops[0].u].len);
      }
      IdleSpendsNothing(Next(sh, ops[0]).value, argCount, ops[1..]);
    }
  }

  /** The run and the return complete. */
  predicate Completes(sh: Shape, ops: seq<Op>)
    requires AllInRange(ops, |sh|) && |sh| > 0
  {
    After(sh, ops).Some? && AfterDrop(After(sh, ops).value[0], Whole, false).Some?
  }

  /** More is created than drops can clear, losses can swallow and the return place and the
      arguments can hold. */
  predicate Overdraws(created: nat, sh: Shape, argCount: nat, ops: seq<Op>)
    requires AllInRange(ops, |sh|) && argCount < |sh|
  {
    && After(sh, ops).Some?
    && created + AllMade(sh, ops) > AllSpent(sh, argCount, ops) + Capacity(After(sh, ops).value[..argCount + 1])
  }
}
