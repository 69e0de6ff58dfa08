/** The emitted C function body: a flat list of labels and statements over declared variables. */
module CLanguage {
  import opened Wrappers
  import opened IL

  /** The literal a branch compares with: false, 0 or NULL by the operand's type. */
  datatype ZeroLiteral = FalseLiteral | NumericZero | NullLiteral

  function ZeroLiteralOf(t: Tag): ZeroLiteral {
    if t.Boolean? then FalseLiteral else if t.IsNumeric() then NumericZero else NullLiteral
  }

  datatype Expression<V> =
    | Constant(tag: Tag, value: V)
    | StackSymbol(name: string)
    | LocalSymbol(index: nat)
    | Binary(op: BinaryOperator, left: Expression<V>, right: Expression<V>)
    | Fmod(left: Expression<V>, right: Expression<V>)
    | Cast(to: Tag, operand: Expression<V>)

  datatype Test =
    | ZeroTest(equal: bool, name: string, literal: ZeroLiteral)
    | CompareTest(comparison: Comparison, left: string, right: string)

  datatype Statement<V> =
    | Assign(name: string, rhs: Expression<V>)
    | AssignLocal(index: nat, rhs: Expression<V>)
    | Goto(target: string)
    | IfGoto(test: Test, target: string)
    | ReturnVoid
    | ReturnValue(rhs: Expression<V>)
    | LeaveTo(offset: nat)
    | EndFinally
    | ThrowException(name: string)
    | RethrowException

  datatype Line<V> = Label(name: string) | Execute(statement: Statement<V>)

  datatype Declaration = Declaration(name: string, tag: Tag)

  datatype Function<V> = Function(declarations: seq<Declaration>, body: seq<Line<V>>)

  /** Type of the first declaration of a name. */
  function DeclaredType(ds: seq<Declaration>, name: string): (r: Option<Tag>)
    ensures r.Some? ==> exists d :: d in ds && d.name == name && d.tag == r.value
  {
    if ds == [] then None
    else if ds[0].name == name then Some(ds[0].tag)
    else DeclaredType(ds[1..], name)
  }

  lemma {:induction false} DeclaredTypeOfUnique(ds: seq<Declaration>, d: Declaration)
    requires d in ds
    requires forall i, j :: 0 <= i < j < |ds| ==> ds[i].name != ds[j].name
    ensures DeclaredType(ds, d.name) == Some(d.tag)
  {
    var i :| 0 <= i < |ds| && ds[i] == d;
    if i > 0 {
      assert ds[1..][i - 1] == d;
      DeclaredTypeOfUnique(ds[1..], d);
    }
  }

  /** Index of the first line that is the given label. */
  function FindLabel<V>(body: seq<Line<V>>, name: string): (r: Option<nat>)
    ensures r.Some? ==> r.value < |body| && body[r.value] == Label(name)
  {
    if body == [] then None
    else if body[0] == Label(name) then Some(0)
    else
      match FindLabel(body[1..], name)
      case None => None
      case Some(i) => Some(i + 1)
  }

  lemma {:induction false} FindLabelUnique<V>(body: seq<Line<V>>, name: string, k: nat)
    requires k < |body| && body[k] == Label(name)
    requires forall i :: 0 <= i < k ==> body[i] != Label(name)
    ensures FindLabel(body, name) == Some(k)
  {
    if k > 0 {
      assert body[0] != Label(name);
      FindLabelUnique(body[1..], name, k - 1);
    }
  }

  datatype CState<V> =
    | Executing(line: nat, variables: map<string, V>, locals: seq<V>)
    | Finished(result: Option<V>)
    | Undefined

  /** A variable is readable once it is declared and has been assigned. */
  function Read<V>(f: Function<V>, vars: map<string, V>, name: string): Option<TypedValue<V>> {
    match DeclaredType(f.declarations, name)
    case None => None
    case Some(t) => if name in vars then Some(TypedValue(t, vars[name])) else None
  }

  predicate IsPointer(t: Tag) { t.ByRef? || t.Object? || t.Exception? }

  /** The usual arithmetic conversions (section 6.3.1.8 of ISO C99): small integers are promoted to int, and the type of
      higher rank wins; None for pointers. intptr_t has the rank of a 64-bit integer and is kept apart from it. */
  function CommonType(t0: Tag, t1: Tag): Option<Tag> {
    if IsPointer(t0) || IsPointer(t1) then None
    else if t0.Double? || t1.Double? then Some(Double)
    else if t0.Single? || t1.Single? then Some(Single)
    else if (t0.IntPtr? && t1.Int64?) || (t0.Int64? && t1.IntPtr?) then None
    else if t0.Int64? || t1.Int64? then Some(Int64)
    else if t0.IntPtr? || t1.IntPtr? then Some(IntPtr)
    else Some(Int32)
  }

  /** `a op b` in C; the remainder operator does not take floating operands. */
  function Operated<V>(sem: Semantics<V>, op: BinaryOperator, a: TypedValue<V>, b: TypedValue<V>): Option<TypedValue<V>> {
    match CommonType(a.tag, b.tag)
    case None => None
    case Some(t) => if op.Rem? && t.IsFloatFriendly() then None else Some(Combined(sem, op, t, a, b))
  }

  function Evaluate<V>(m: Method<V>, f: Function<V>, sem: Semantics<V>, vars: map<string, V>, locals: seq<V>,
                       e: Expression<V>): Option<TypedValue<V>> {
    match e
    case Constant(t, v) => Some(TypedValue(t, v))
    case StackSymbol(name) => Read(f, vars, name)
    case LocalSymbol(i) =>
      if i < |m.locals| && i < |locals| then Some(TypedValue(m.locals[i], locals[i])) else None
    case Binary(op, l, r) =>
      (match (Evaluate(m, f, sem, vars, locals, l), Evaluate(m, f, sem, vars, locals, r))
       case (Some(a), Some(b)) => Operated(sem, op, a, b)
       case _ => None)
    case Fmod(l, r) =>
      // The arguments are converted to double; the function is the remainder of doubles.
      (match (Evaluate(m, f, sem, vars, locals, l), Evaluate(m, f, sem, vars, locals, r))
       case (Some(a), Some(b)) =>
         if IsPointer(a.tag) || IsPointer(b.tag) then None else Some(Combined(sem, Rem, Double, a, b))
       case _ => None)
    case Cast(to, operand) =>
      match Evaluate(m, f, sem, vars, locals, operand)
      case None => None
      case Some(a) => Some(TypedValue(to, Convert(sem, to, a.tag, a.value)))
  }

  /** Truth values are compared with false, arithmetic types with 0, pointers with NULL. */
  predicate IsComparable(literal: ZeroLiteral, t: Tag) {
    match literal
    case FalseLiteral => t.Boolean?
    case NumericZero => t in {Int16, Int32, Int64, IntPtr, Single, Double}
    case NullLiteral => IsPointer(t)
  }

  function EvaluateTest<V>(f: Function<V>, sem: Semantics<V>, vars: map<string, V>, t: Test): Option<bool> {
    match t
    case ZeroTest(equal, name, literal) =>
      (match Read(f, vars, name)
       case None => None
       case Some(a) =>
         if IsComparable(literal, a.tag) then Some(sem.isZero(a.tag, a.value) == equal) else None)
    case CompareTest(c, l, r) =>
      match (Read(f, vars, l), Read(f, vars, r))
      case (Some(a), Some(b)) => Some(sem.compare(c, a.tag, a.value, b.tag, b.value))
      case _ => None
  }

  function Jump<V>(f: Function<V>, s: CState<V>, target: string): CState<V>
    requires s.Executing?
  {
    match FindLabel(f.body, target)
    case None => Undefined
    case Some(k) => s.(line := k)
  }

  /** One step of the C function. Reading an unassigned variable, assigning with a different type,
      jumping to a missing label and running off the end are undefined. */
  function CStep<V>(m: Method<V>, f: Function<V>, sem: Semantics<V>, s: CState<V>): CState<V> {
    if !s.Executing? then s
    else if s.line >= |f.body| then Undefined
    else if f.body[s.line].Label? then s.(line := s.line + 1)
    else
      match f.body[s.line].statement
      case Assign(name, e) =>
        (match (DeclaredType(f.declarations, name), Evaluate(m, f, sem, s.variables, s.locals, e))
         case (Some(t), Some(v)) =>
           if v.tag == t then s.(line := s.line + 1, variables := s.variables[name := v.value]) else Undefined
         case _ => Undefined)
      case AssignLocal(i, e) =>
        (match Evaluate(m, f, sem, s.variables, s.locals, e)
         case None => Undefined
         case Some(v) =>
           if i < |m.locals| && i < |s.locals| && v.tag == m.locals[i]
           then s.(line := s.line + 1, locals := s.locals[i := v.value]) else Undefined)
      case Goto(target) => Jump(f, s, target)
      case IfGoto(t, target) =>
        (match EvaluateTest(f, sem, s.variables, t)
         case None => Undefined
         case Some(b) => if b then Jump(f, s, target) else s.(line := s.line + 1))
      case ReturnVoid => if m.returnType.None? then Finished(None) else Undefined
      case ReturnValue(e) =>
        (match Evaluate(m, f, sem, s.variables, s.locals, e)
         case None => Undefined
         case Some(v) => if m.returnType == Some(v.tag) then Finished(Some(v.value)) else Undefined)
      case _ => Undefined
  }

  function CSteps<V>(m: Method<V>, f: Function<V>, sem: Semantics<V>, s: CState<V>, k: nat): CState<V>
    decreases k
  {
    if k == 0 then s else CStep(m, f, sem, CSteps(m, f, sem, s, k - 1))
  }

  /** Evaluation-stack variables start unassigned. */
  function CStart<V>(locals: seq<V>): CState<V> { Executing(0, map[], locals) }
}
