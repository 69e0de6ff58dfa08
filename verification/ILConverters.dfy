/** The converters: each takes its operands from the decode context, gives its results to it and
    says which C statements stand for the instruction (IL2C.Core/ILConveters). */
module ILConverters {
  import opened Wrappers
  import opened Names
  import opened IL
  import opened CLanguage
  import opened DecodeContexts

  datatype DecodeError = StackUnderflowOrType | OperandNotFound | EndOfBody

  /** An emitter runs when the function is written; None means it throws then. */
  type Emitter<V> = Option<seq<Statement<V>>>

  /** Right-hand side that stores a variable where `to` is declared. */
  function RightExpression<V>(to: Tag, v: StackVariable): Option<Expression<V>> {
    if to == v.targetType then Some(StackSymbol(v.symbolName))
    else if IsStorable(to, v.targetType) then Some(Cast(to, StackSymbol(v.symbolName)))
    else None
  }

  function StoreTo<V>(to: Tag, v: StackVariable, statement: Expression<V> -> Statement<V>): Emitter<V> {
    match RightExpression<V>(to, v)
    case None => None
    case Some(e) => Some([statement(e)])
  }

  /** The right-hand side that is written for two operand symbols. */
  function FormExpression<V>(form: ArithmeticForm, t: Tag, op: BinaryOperator, left: string, right: string): Expression<V> {
    var a: Expression<V>, b: Expression<V> := StackSymbol(left), StackSymbol(right);
    match form
    case Plain => Binary(op, a, b)
    case FmodCall => Fmod(a, b)
    case ViaDouble => Binary(op, Cast(Double, a), Cast(Double, b))
    case ViaIntPtr =>
      var e := Binary(op, Cast(IntPtr, a), Cast(IntPtr, b));
      if t.IntPtr? then e else Cast(t, e)
  }

  /** What the emitted right-hand side computes by the rules of C: for standard operands the standard's value, an int32 with
      an int64 as 64-bit integers, a difference of managed pointers as a pointer of the first one's type. */
  lemma EmittedArithmetic<V>(m: Method<V>, f: Function<V>, sem: Semantics<V>, vars: map<string, V>, locals: seq<V>,
                             op: BinaryOperator, left: string, right: string, a: TypedValue<V>, b: TypedValue<V>)
    requires Read(f, vars, left) == Some(a) && Read(f, vars, right) == Some(b) && ArithmeticTyping(op, a.tag, b.tag).Some?
    ensures
      var (form, t) := ArithmeticTyping(op, a.tag, b.tag).value;
      var v := Evaluate(m, f, sem, vars, locals, FormExpression(form, t, op, left, right));
      && v.Some? && v.value.tag == t
      && (IsStandard(op, a.tag, b.tag) ==> v == StandardValue(sem, op, a, b))
      && (IsMixed(a.tag, b.tag) ==> v == Some(Combined(sem, op, Int64, a, b)))
      && (op.Sub? && a.tag.ByRef? && b.tag.ByRef? ==>
            v == Some(TypedValue(a.tag, Convert(sem, a.tag, IntPtr, Combined(sem, op, IntPtr, a, b).value))))
  {
    hide Read;
    var (form, t) := ArithmeticTyping(op, a.tag, b.tag).value;
    var x: Expression<V>, y: Expression<V> := StackSymbol(left), StackSymbol(right);
    assert Evaluate(m, f, sem, vars, locals, x) == Some(a) && Evaluate(m, f, sem, vars, locals, y) == Some(b);
    if form == ViaDouble {
      CastOperands(m, f, sem, vars, locals, op, Double, x, y, a, b);
    } else if form == ViaIntPtr {
      CastOperands(m, f, sem, vars, locals, op, IntPtr, x, y, a, b);
    }
  }

  lemma {:induction false} CastOperands<V>(m: Method<V>, f: Function<V>, sem: Semantics<V>, vars: map<string, V>, locals: seq<V>,
                        op: BinaryOperator, t: Tag, x: Expression<V>, y: Expression<V>, a: TypedValue<V>, b: TypedValue<V>)
    requires Evaluate(m, f, sem, vars, locals, x) == Some(a) && Evaluate(m, f, sem, vars, locals, y) == Some(b)
    requires t.IntPtr? || (t.Double? && !op.Rem?)
    ensures Evaluate(m, f, sem, vars, locals, Binary(op, Cast(t, x), Cast(t, y))) == Some(Combined(sem, op, t, a, b))
  {
    hide Read;
    assert Evaluate(m, f, sem, vars, locals, Cast(t, x)) == Some(TypedValue(t, Convert(sem, t, a.tag, a.value)));
    assert Evaluate(m, f, sem, vars, locals, Cast(t, y)) == Some(TypedValue(t, Convert(sem, t, b.tag, b.value)));
  }

  /** The statements that stand for an instruction which turns the stack variables `before` into `after`. */
  function Emission<V>(m: Method<V>, i: Instruction<V>, before: seq<StackVariable>, after: seq<StackVariable>): Emitter<V>
    requires TypesAfter(m, i, Types(before)) == Some(Types(after))
  {
    var n := |before|;
    assert |Types(after)| == |after|;
    match i
    case Nop => Some([])
    case Ldc(t, v) => Some([Assign(after[n].symbolName, Constant(t, v))])
    case Ldloc(x) => Some([Assign(after[n].symbolName, LocalSymbol(x))])
    case Stloc(x) => StoreTo(m.locals[x], before[n - 1], e => AssignLocal(x, e))
    case Dup => Some([Assign(after[n].symbolName, StackSymbol(before[n - 1].symbolName))])
    case Pop => Some([])
    case Arithmetic(op) =>
      var (form, t) := ArithmeticTyping(op, before[n - 2].targetType, before[n - 1].targetType).value;
      Some([Assign(after[n - 2].symbolName, FormExpression(form, t, op, before[n - 2].symbolName, before[n - 1].symbolName))])
    case Br(t) => Some([Goto(LabelName(t))])
    case BrBool(sense, t) =>
      var v := before[n - 1];
      Some([IfGoto(ZeroTest(!sense, v.symbolName, ZeroLiteralOf(v.targetType)), LabelName(t))])
    case BrCompare(c, t) =>
      Some([IfGoto(CompareTest(c, before[n - 2].symbolName, before[n - 1].symbolName), LabelName(t))])
    case Leave(t) => Some([LeaveTo(t)])
    case Endfinally => Some([EndFinally])
    case Throw => Some([ThrowException(before[n - 1].symbolName)])
    case Rethrow => Some([RethrowException])
    case Ret =>
      if m.returnType.None? then Some([ReturnVoid])
      else StoreTo(m.returnType.value, before[n - 1], e => ReturnValue(e))
  }

  /** What every converter promises: it fails exactly when the instruction does not apply to the stack types,
      and otherwise retypes the stack and emits the instruction's statements. */
  ghost predicate Converted<V>(m: Method<V>, i: Instruction<V>, before: seq<StackVariable>, after: seq<StackVariable>,
                               r: Option<Emitter<V>>)
  {
    match TypesAfter(m, i, Types(before))
    case None => r.None?
    case Some(ts) => Types(after) == ts && r == Some(Emission(m, i, before, after))
  }

  ghost predicate Grown(before: Table, after: Table) { Extends(before, after) }

  method PushOnly<V(==)>(ctx: DecodeContext<V>, i: Instruction<V>) returns (r: Option<Emitter<V>>)
    requires i.Ldc? || i.Ldloc?
    requires ctx.Valid() && ctx.stackPointer >= 0
    modifies ctx`stackList, ctx`stackPointer
    ensures ctx.Valid() && ctx.stackPointer >= 0 && Grown(old(ctx.Variables()), ctx.Variables())
    ensures Converted(ctx.body, i, old(ctx.Current()), ctx.Current(), r)
  {
    ghost var before := ctx.Current();
    match i {
      case Ldc(t, value) =>
        var symbol := ctx.PushStack(t);
        assert Types(ctx.Current()) == Types(before) + [t];
        r := Some(Some([Assign(symbol.symbolName, Constant(t, value))]));
      case Ldloc(x) =>
        if x >= |ctx.body.locals| { return None; }
        var symbol := ctx.PushStack(ctx.body.locals[x]);
        assert Types(ctx.Current()) == Types(before) + [ctx.body.locals[x]];
        r := Some(Some([Assign(symbol.symbolName, LocalSymbol(x))]));
    }
  }

  method Store<V(==)>(ctx: DecodeContext<V>, i: Instruction<V>) returns (r: Option<Emitter<V>>)
    requires i.Stloc? || i.Ret?
    requires ctx.Valid() && ctx.stackPointer >= 0
    modifies ctx`stackList, ctx`stackPointer
    ensures ctx.Valid() && ctx.stackPointer >= 0 && Grown(old(ctx.Variables()), ctx.Variables())
    ensures Converted(ctx.body, i, old(ctx.Current()), ctx.Current(), r)
  {
    ghost var before := ctx.Current();
    if i.Ret? && ctx.body.returnType.None? {
      return Some(Some([ReturnVoid]));
    }
    if i.Stloc? && i.index >= |ctx.body.locals| { return None; }
    var si := ctx.PopStack();
    if si.None? { return None; }
    assert Types(ctx.Current()) == Types(before)[..|before| - 1];
    if i.Stloc? {
      r := Some(StoreTo(ctx.body.locals[i.index], si.value, e => AssignLocal(i.index, e)));
    } else {
      r := Some(StoreTo(ctx.body.returnType.value, si.value, e => ReturnValue(e)));
    }
  }

  method PrepareDup<V(==)>(ctx: DecodeContext<V>) returns (r: Option<Emitter<V>>)
    requires ctx.Valid() && ctx.stackPointer >= 0
    modifies ctx`stackList, ctx`stackPointer
    ensures ctx.Valid() && ctx.stackPointer >= 0 && Grown(old(ctx.Variables()), ctx.Variables())
    ensures Converted(ctx.body, Dup, old(ctx.Current()), ctx.Current(), r)
  {
    ghost var before := ctx.Current();
    var si := ctx.PopStack();
    if si.None? { return None; }
    var symbol0 := ctx.PushStack(si.value.targetType);
    var symbol1 := ctx.PushStack(si.value.targetType);
    assert Types(ctx.Current()) == Types(before) + [si.value.targetType];
    r := Some(Some([Assign(symbol1.symbolName, StackSymbol(si.value.symbolName))]));
  }

  /** What the table of the standard says about the types before and after, for the operands for which it is followed. */
  ghost predicate FollowsTable(op: BinaryOperator, before: seq<Tag>, after: seq<Tag>, accepted: bool) {
    var n := |before|;
    n >= 2 && IsStandard(op, before[n - 2], before[n - 1]) ==>
      match StandardTyping(op, before[n - 2], before[n - 1])
      case None => !accepted
      case Some(t) => accepted && after == before[..n - 2] + [t]
  }

  lemma TooFew(op: BinaryOperator, before: seq<Tag>, after: seq<Tag>)
    ensures |before| < 2 ==> FollowsTable(op, before, after, false)
  {
  }

  lemma TypedByTable(op: BinaryOperator, before: seq<Tag>)
    requires |before| >= 2
    ensures
      var n := |before|;
      match ArithmeticTyping(op, before[n - 2], before[n - 1])
      case None => forall after :: FollowsTable(op, before, after, false)
      case Some((_, t)) => FollowsTable(op, before, before[..n - 2] + [t], true)
  {
    hide ArithmeticTyping, StandardTyping, IsStandard;
    TypingIsStandard(op, before[|before| - 2], before[|before| - 1]);
  }

  lemma ArithmeticFails<V>(m: Method<V>, op: BinaryOperator, before: seq<StackVariable>, after: seq<StackVariable>)
    requires |before| >= 2 ==> ArithmeticTyping(op, before[|before| - 2].targetType, before[|before| - 1].targetType).None?
    ensures Converted(m, Arithmetic(op), before, after, None)
    ensures FollowsTable(op, Types(before), Types(after), false)
  {
    hide ArithmeticTyping, FollowsTable;
    TooFew(op, Types(before), Types(after));
    if |before| >= 2 { TypedByTable(op, Types(before)); }
  }

  lemma ArithmeticConverts<V>(m: Method<V>, op: BinaryOperator, before: seq<StackVariable>, result: StackVariable)
    requires |before| >= 2
    requires ArithmeticTyping(op, before[|before| - 2].targetType, before[|before| - 1].targetType).Some?
    requires result.targetType == ArithmeticTyping(op, before[|before| - 2].targetType, before[|before| - 1].targetType).value.1
    ensures
      var n := |before|;
      var after, form := before[..n - 2] + [result], ArithmeticTyping(op, before[n - 2].targetType, before[n - 1].targetType).value.0;
      var e := FormExpression<V>(form, result.targetType, op, before[n - 2].symbolName, before[n - 1].symbolName);
      && Converted(m, Arithmetic(op), before, after, Some(Some([Assign(result.symbolName, e)])))
      && FollowsTable(op, Types(before), Types(after), true)
  {
    hide ArithmeticTyping, FollowsTable, FormExpression;
    var n := |before|;
    assert Types(before[..n - 2] + [result]) == Types(before)[..n - 2] + [result.targetType];
    TypedByTable(op, Types(before));
  }

  method PrepareArithmetic<V(==)>(ctx: DecodeContext<V>, op: BinaryOperator) returns (r: Option<Emitter<V>>)
    requires ctx.Valid() && ctx.stackPointer >= 0
    modifies ctx`stackList, ctx`stackPointer
    ensures ctx.Valid() && ctx.stackPointer >= 0 && Grown(old(ctx.Variables()), ctx.Variables())
    ensures Converted(ctx.body, Arithmetic(op), old(ctx.Current()), ctx.Current(), r)
    ensures FollowsTable(op, Types(old(ctx.Current())), Types(ctx.Current()), r.Some?)
  {
    hide ArithmeticTyping, LabelName, SymbolName, IsStorable, FormExpression, FollowsTable, Converted;
    ghost var before := ctx.Current();
    var si1 := ctx.PopStack();
    if si1.None? {
      ArithmeticFails(ctx.body, op, before, ctx.Current());
      return None;
    }
    var si0 := ctx.PopStack();
    if si0.None? {
      ArithmeticFails(ctx.body, op, before, ctx.Current());
      return None;
    }
    ghost var rest := ctx.Current();
    assert before == rest + [si0.value] + [si1.value];
    assert before[..|before| - 2] == rest;
    match ArithmeticTyping(op, si0.value.targetType, si1.value.targetType)
    case None =>
      ArithmeticFails(ctx.body, op, before, ctx.Current());
      return None;
    case Some((form, t)) =>
      var result := ctx.PushStack(t);
      ArithmeticConverts(ctx.body, op, before, result);
      r := Some(Some([Assign(result.symbolName, FormExpression(form, t, op, si0.value.symbolName, si1.value.symbolName))]));
  }

  method PopOnly<V(==)>(ctx: DecodeContext<V>, i: Instruction<V>) returns (r: Option<Emitter<V>>)
    requires i.Pop? || i.Throw?
    requires ctx.Valid() && ctx.stackPointer >= 0
    modifies ctx`stackPointer
    ensures ctx.Valid() && ctx.stackPointer >= 0
    ensures Converted(ctx.body, i, old(ctx.Current()), ctx.Current(), r)
  {
    ghost var before := ctx.Current();
    var si := ctx.PopStack();
    if si.None? || (i.Throw? && !si.value.targetType.Exception?) { return None; }
    assert Types(ctx.Current()) == Types(before)[..|before| - 1];
    r := Some(Some(if i.Pop? then [] else [ThrowException(si.value.symbolName)]));
  }

  method NoOperands<V(==)>(ctx: DecodeContext<V>, i: Instruction<V>) returns (r: Option<Emitter<V>>)
    requires i.Nop? || i.Rethrow? || i.Endfinally?
    requires ctx.Valid() && ctx.stackPointer >= 0
    ensures Converted(ctx.body, i, ctx.Current(), ctx.Current(), r)
  {
    match i {
      case Nop => r := Some(Some([]));
      case Endfinally => r := Some(Some([EndFinally]));
      case Rethrow => r := Some(Some([RethrowException]));
    }
  }

  method Branch<V(==)>(ctx: DecodeContext<V>, i: Instruction<V>) returns (r: Option<Emitter<V>>)
    requires i.Br? || i.Leave?
    requires ctx.Valid() && ctx.stackPointer >= 0
    modifies ctx`stackPointer, ctx`pathRemains, ctx`labelNames
    ensures ctx.Valid() && ctx.stackPointer >= 0
    ensures Converted(ctx.body, i, old(ctx.Current()), ctx.Current(), r)
    ensures r.Some? ==>
              && ctx.pathRemains == old(ctx.pathRemains) + [StackSnapshot(i.target, ctx.Current())]
              && ctx.labelNames == old(ctx.labelNames)[i.target := LabelName(i.target)]
  {
    var labelName := ctx.EnqueueNewPath(i.target);
    r := Some(Some([if i.Br? then Goto(labelName) else LeaveTo(i.target)]));
  }

  /** brtrue and brfalse. */
  method ApplyFalse<V(==)>(ctx: DecodeContext<V>, sense: bool, target: nat) returns (r: Option<Emitter<V>>)
    requires ctx.Valid() && ctx.stackPointer >= 0
    modifies ctx`stackPointer, ctx`pathRemains, ctx`labelNames
    ensures ctx.Valid() && ctx.stackPointer >= 0
    ensures Converted(ctx.body, BrBool(sense, target), old(ctx.Current()), ctx.Current(), r)
    ensures r.Some? ==>
              && ctx.pathRemains == old(ctx.pathRemains) + [StackSnapshot(target, ctx.Current())]
              && ctx.labelNames == old(ctx.labelNames)[target := LabelName(target)]
  {
    ghost var before := ctx.Current();
    var si := ctx.PopStack();
    if si.None? { return None; }
    assert Types(ctx.Current()) == Types(before)[..|before| - 1];
    var labelName := ctx.EnqueueNewPath(target);
    r := Some(Some([IfGoto(ZeroTest(!sense, si.value.symbolName, ZeroLiteralOf(si.value.targetType)), labelName)]));
  }

  /** The comparing branches. */
  method ApplyBinary<V(==)>(ctx: DecodeContext<V>, c: Comparison, target: nat) returns (r: Option<Emitter<V>>)
    requires ctx.Valid() && ctx.stackPointer >= 0
    modifies ctx`stackPointer, ctx`pathRemains, ctx`labelNames
    ensures ctx.Valid() && ctx.stackPointer >= 0
    ensures Converted(ctx.body, BrCompare(c, target), old(ctx.Current()), ctx.Current(), r)
    ensures r.Some? ==>
              && ctx.pathRemains == old(ctx.pathRemains) + [StackSnapshot(target, ctx.Current())]
              && ctx.labelNames == old(ctx.labelNames)[target := LabelName(target)]
  {
    ghost var before := ctx.Current();
    var si1 := ctx.PopStack();
    if si1.None? { return None; }
    var si0 := ctx.PopStack();
    if si0.None? { return None; }
    assert Types(ctx.Current()) == Types(before)[..|before| - 2];
    var labelName := ctx.EnqueueNewPath(target);
    r := Some(Some([IfGoto(CompareTest(c, si0.value.symbolName, si1.value.symbolName), labelName)]));
  }

  lemma ConvertedFails<V>(m: Method<V>, i: Instruction<V>, before: seq<StackVariable>, after: seq<StackVariable>,
                          r: Option<Emitter<V>>)
    requires Converted(m, i, before, after, r)
    ensures r.None? <==> TypesAfter(m, i, Types(before)).None?
  {
    hide TypesAfter, Emission;
  }

  /** Dispatch on the opcode. The operand of a branch is looked up in the code stream first. */
  method Prepare<V(==)>(ctx: DecodeContext<V>, i: Instruction<V>) returns (r: Result<Emitter<V>, DecodeError>)
    requires ctx.Valid() && ctx.stackPointer >= 0
    modifies ctx`stackList, ctx`stackPointer, ctx`pathRemains, ctx`labelNames
    ensures ctx.Valid() && ctx.stackPointer >= 0 && Grown(old(ctx.Variables()), ctx.Variables())
    ensures r.Failure? <==> TypesAfter(ctx.body, i, Types(old(ctx.Current()))).None? ||
                            (i.Targets() != [] && i.target !in ctx.body.code)
    ensures r.Success? ==> Converted(ctx.body, i, old(ctx.Current()), ctx.Current(), Some(r.value))
    ensures r.Success? && i.Targets() == [] ==>
              ctx.pathRemains == old(ctx.pathRemains) && ctx.labelNames == old(ctx.labelNames)
    ensures r.Success? && i.Targets() != [] ==>
              && ctx.pathRemains == old(ctx.pathRemains) + [StackSnapshot(i.target, ctx.Current())]
              && ctx.labelNames == old(ctx.labelNames)[i.target := LabelName(i.target)]
  {
    if i.Targets() != [] && i.target !in ctx.body.code {
      return Failure(OperandNotFound);
    }
    hide Emission, Converted, TypesAfter;
    var emitter: Option<Emitter<V>>;
    if i.Targets() != [] {
      emitter := PrepareBranch(ctx, i);
    } else {
      emitter := PrepareStraight(ctx, i);
    }
    ConvertedFails(ctx.body, i, old(ctx.Current()), ctx.Current(), emitter);
    if emitter.None? {
      return Failure(StackUnderflowOrType);
    }
    return Success(emitter.value);
  }

  method PrepareStraight<V(==)>(ctx: DecodeContext<V>, i: Instruction<V>) returns (r: Option<Emitter<V>>)
    requires i.Targets() == []
    requires ctx.Valid() && ctx.stackPointer >= 0
    modifies ctx`stackList, ctx`stackPointer
    ensures ctx.Valid() && ctx.stackPointer >= 0 && Grown(old(ctx.Variables()), ctx.Variables())
    ensures Converted(ctx.body, i, old(ctx.Current()), ctx.Current(), r)
  {
    hide Emission, Converted, TypesAfter;
    match i {
      case Ldc(_, _) => r := PushOnly(ctx, i);
      case Ldloc(_) => r := PushOnly(ctx, i);
      case Stloc(_) => r := Store(ctx, i);
      case Ret => r := Store(ctx, i);
      case Dup => r := PrepareDup(ctx);
      case Arithmetic(op) => r := PrepareArithmetic(ctx, op);
      case Pop => r := PopOnly(ctx, i);
      case Throw => r := PopOnly(ctx, i);
      case _ => r := NoOperands(ctx, i);
    }
  }

  method PrepareBranch<V(==)>(ctx: DecodeContext<V>, i: Instruction<V>) returns (r: Option<Emitter<V>>)
    requires i.Targets() != []
    requires ctx.Valid() && ctx.stackPointer >= 0
    modifies ctx`stackPointer, ctx`pathRemains, ctx`labelNames
    ensures ctx.Valid() && ctx.stackPointer >= 0
    ensures Converted(ctx.body, i, old(ctx.Current()), ctx.Current(), r)
    ensures r.Some? ==>
              && ctx.pathRemains == old(ctx.pathRemains) + [StackSnapshot(i.target, ctx.Current())]
              && ctx.labelNames == old(ctx.labelNames)[i.target := LabelName(i.target)]
  {
    hide Emission, Converted, TypesAfter;
    match i {
      case Br(_) => r := Branch(ctx, i);
      case Leave(_) => r := Branch(ctx, i);
      case BrBool(sense, t) => r := ApplyFalse(ctx, sense, t);
      case BrCompare(c, t) => r := ApplyBinary(ctx, c, t);
    }
  }
}
