/** The modelled part of CIL: instructions, their stack typing and their meaning as a stack machine.
    Values are uninterpreted; every value on the evaluation stack carries its type tag. */
module IL {
  import opened Wrappers

  datatype Tag =
    | Boolean | Int16 | Int32 | Int64 | Single | Double | IntPtr
    | ByRef(element: Tag) | Object(name: string) | Exception(name: string)
  {
    predicate IsInteger() { Int16? || Int32? || Int64? }
    predicate IsInt32Friendly() { Boolean? || Int16? || Int32? }
    predicate IsInt64Friendly() { Boolean? || Int16? || Int32? || Int64? }
    predicate IsFloatFriendly() { Single? || Double? }
    predicate IsNumeric() { IsInteger() || IntPtr? || Single? || Double? }
  }

  datatype BinaryOperator = Add | Sub | Mul | Div | Rem

  datatype Comparison = Eq | Ne | Lt | Gt | Ge

  datatype Instruction<V> =
    | Nop
    | Ldc(tag: Tag, value: V)
    | Ldloc(index: nat)
    | Stloc(index: nat)
    | Dup
    | Pop
    | Arithmetic(op: BinaryOperator)
    | Br(target: nat)
    | BrBool(sense: bool, target: nat)
    | BrCompare(comparison: Comparison, target: nat)
    | Leave(target: nat)
    | Endfinally
    | Throw
    | Rethrow
    | Ret
  {
    /** The instructions whose converter says IsEndOfPath. */
    predicate IsEndOfPath() {
      Br? || Leave? || Endfinally? || Throw? || Rethrow? || Ret?
    }

    function Targets(): seq<nat> {
      match this
      case Br(t) => [t]
      case BrBool(_, t) => [t]
      case BrCompare(_, t) => [t]
      case Leave(t) => [t]
      case _ => []
    }

    predicate IsExceptionRelated() { Leave? || Endfinally? || Throw? || Rethrow? }
  }

  datatype Code<V> = Code(size: nat, instruction: Instruction<V>)

  datatype HandlerEntry = Catch(start: nat, catchType: Tag) | Finally(start: nat) {
    function EntryTypes(): seq<Tag> { if Catch? then [catchType] else [] }
  }

  /** A method body. `offsets` lists the keys of `code` in ascending order, as the sorted
      code stream enumerates them. */
  datatype Method<V> = Method(
    code: map<nat, Code<V>>, offsets: seq<nat>, locals: seq<Tag>, returnType: Option<Tag>, handlers: seq<HandlerEntry>)
  {
    ghost predicate Sorted() {
      && (forall i, j :: 0 <= i < j < |offsets| ==> offsets[i] < offsets[j])
      && (forall o :: o in code <==> o in offsets)
    }

    /** Instructions fill the body from offset 0 without gaps or overlaps. */
    ghost predicate Contiguous() {
      && Sorted()
      && |offsets| >= 1 && offsets[0] == 0
      && (forall o :: o in code ==> code[o].size >= 1)
      && (forall i :: 0 <= i < |offsets| - 1 ==> offsets[i] + code[offsets[i]].size == offsets[i + 1])
    }

    ghost predicate IsRoot(o: nat) {
      o == 0 || exists h :: h in handlers && h.start == o
    }

    /** Control may go from o to s in one step. */
    ghost predicate IsSuccessor(o: nat, s: nat) {
      o in code && (s in code[o].instruction.Targets() ||
                    (!code[o].instruction.IsEndOfPath() && s == o + code[o].size))
    }

    ghost predicate IsPath(p: seq<nat>) {
      && |p| >= 1 && IsRoot(p[0])
      && forall i :: 0 <= i < |p| - 1 ==> IsSuccessor(p[i], p[i + 1])
    }

    ghost predicate Reachable(o: nat) {
      exists p :: IsPath(p) && p[|p| - 1] == o
    }
  }

  lemma RootReachable<V>(m: Method<V>, o: nat)
    requires m.IsRoot(o)
    ensures m.Reachable(o)
  {
    assert m.IsPath([o]) && [o][|[o]| - 1] == o;
  }

  lemma SuccessorReachable<V>(m: Method<V>, o: nat, s: nat)
    requires m.Reachable(o) && m.IsSuccessor(o, s)
    ensures m.Reachable(s)
  {
    var p :| m.IsPath(p) && p[|p| - 1] == o;
    var q := p + [s];
    assert forall i :: 0 <= i < |q| - 1 ==> i == |p| - 1 || (q[i] == p[i] && q[i + 1] == p[i + 1]);
    assert m.IsPath(q) && q[|q| - 1] == s;
  }

  /** A set that holds the roots and is closed under successors holds every reachable offset. */
  lemma ReachableInClosed<V>(m: Method<V>, closed: iset<nat>, o: nat)
    requires forall r :: m.IsRoot(r) ==> r in closed
    requires forall a, b :: a in closed && m.IsSuccessor(a, b) ==> b in closed
    requires m.Reachable(o)
    ensures o in closed
  {
    var p :| m.IsPath(p) && p[|p| - 1] == o;
    PathInClosed(m, closed, p, |p| - 1);
  }

  lemma {:induction false} PathInClosed<V>(m: Method<V>, closed: iset<nat>, p: seq<nat>, k: nat)
    requires forall r :: m.IsRoot(r) ==> r in closed
    requires forall a, b :: a in closed && m.IsSuccessor(a, b) ==> b in closed
    requires m.IsPath(p) && k < |p|
    ensures p[k] in closed
  {
    if k > 0 {
      PathInClosed(m, closed, p, k - 1);
      assert m.IsSuccessor(p[k - 1], p[(k - 1) + 1]);
    }
  }

  /** How the emitted C combines two operands (section III.1.5 of ECMA-335, in the order tested). */
  datatype ArithmeticForm = Plain | FmodCall | ViaDouble | ViaIntPtr

  function ArithmeticTyping(op: BinaryOperator, t0: Tag, t1: Tag): Option<(ArithmeticForm, Tag)> {
    if t0.IsInt32Friendly() && t1.IsInt32Friendly() then Some((Plain, Int32))
    else if t0.IsInt64Friendly() && t1.IsInt64Friendly() then Some((Plain, Int64))
    else if t0.IsFloatFriendly() && t1.IsFloatFriendly() && op.Rem? then Some((FmodCall, Double))
    else if t0.IsFloatFriendly() && t1.IsFloatFriendly() then Some((ViaDouble, Double))
    else if t0.IsInt32Friendly() && t1.ByRef? && op.Add? then Some((ViaIntPtr, t1))
    else if t0.IntPtr? && t1.ByRef? && op.Add? then Some((ViaIntPtr, t1))
    else if t0.ByRef? && (t1.IsInt32Friendly() || t1.IntPtr?) && (op.Add? || op.Sub?) then Some((ViaIntPtr, t0))
    else if t0.ByRef? && t1.ByRef? && op.Sub? then Some((ViaIntPtr, t0))
    else if (t0.IsInt32Friendly() || t0.IntPtr?) && (t1.IsInt32Friendly() || t1.IntPtr?) then Some((ViaIntPtr, IntPtr))
    else None
  }

  // ---------------------------------------------------------------------------------------------
  // Section III.1.5 of ECMA-335, Binary Numeric Operations

  /** What CIL distinguishes on its evaluation stack. */
  datatype Kind = KInt32 | KInt64 | KNativeInt | KFloat | KManagedPointer | KObject

  function KindOf(t: Tag): Kind {
    match t
    case Boolean => KInt32
    case Int16 => KInt32
    case Int32 => KInt32
    case Int64 => KInt64
    case IntPtr => KNativeInt
    case Single => KFloat
    case Double => KFloat
    case ByRef(_) => KManagedPointer
    case _ => KObject
  }

  /** The table of the standard: the kind of the result, None for operands that do not go together. */
  function BinaryNumeric(op: BinaryOperator, a: Kind, b: Kind): Option<Kind> {
    match (a, b)
    case (KInt32, KInt32) => Some(KInt32)
    case (KInt32, KNativeInt) => Some(KNativeInt)
    case (KInt32, KManagedPointer) => if op.Add? then Some(KManagedPointer) else None
    case (KInt64, KInt64) => Some(KInt64)
    case (KNativeInt, KInt32) => Some(KNativeInt)
    case (KNativeInt, KNativeInt) => Some(KNativeInt)
    case (KNativeInt, KManagedPointer) => if op.Add? then Some(KManagedPointer) else None
    case (KFloat, KFloat) => Some(KFloat)
    case (KManagedPointer, KInt32) => if op.Add? || op.Sub? then Some(KManagedPointer) else None
    case (KManagedPointer, KNativeInt) => if op.Add? || op.Sub? then Some(KManagedPointer) else None
    case (KManagedPointer, KManagedPointer) => if op.Sub? then Some(KNativeInt) else None
    case _ => None
  }

  /** The type in which values of a kind are held; a managed pointer keeps the type of the pointer operand. */
  function TagOf(k: Kind, t0: Tag, t1: Tag): Tag {
    match k
    case KInt32 => Int32
    case KInt64 => Int64
    case KNativeInt => IntPtr
    case KFloat => Double
    case _ => if KindOf(t0) == k then t0 else t1
  }

  /** The type of the result by the standard. */
  function StandardTyping(op: BinaryOperator, t0: Tag, t1: Tag): Option<Tag> {
    match BinaryNumeric(op, KindOf(t0), KindOf(t1))
    case None => None
    case Some(k) => Some(TagOf(k, t0, t1))
  }

  predicate IsMixed(t0: Tag, t1: Tag) {
    (KindOf(t0) == KInt32 && KindOf(t1) == KInt64) || (KindOf(t0) == KInt64 && KindOf(t1) == KInt32)
  }

  /** The operands for which the translator follows the standard. */
  predicate IsStandard(op: BinaryOperator, t0: Tag, t1: Tag) {
    !IsMixed(t0, t1) && !(op.Sub? && t0.ByRef? && t1.ByRef?)
  }

  /** The translator refuses exactly what the standard refuses, and gives results the standard's type, if and only if it
      is neither an int32 with an int64, which it accepts, nor a difference of managed pointers, which it keeps a pointer. */
  lemma TypingIsStandard(op: BinaryOperator, t0: Tag, t1: Tag)
    ensures
      var code, standard := ArithmeticTyping(op, t0, t1), StandardTyping(op, t0, t1);
      (IsStandard(op, t0, t1) <==> (if code.None? then standard.None? else standard == Some(code.value.1)))
    ensures IsMixed(t0, t1) ==> StandardTyping(op, t0, t1).None? && ArithmeticTyping(op, t0, t1) == Some((Plain, Int64))
    ensures op.Sub? && t0.ByRef? && t1.ByRef? ==>
              StandardTyping(op, t0, t1) == Some(IntPtr) && ArithmeticTyping(op, t0, t1) == Some((ViaIntPtr, t0))
  {
  }

  /** A value of type `from` may be stored where `to` is declared. */
  predicate IsStorable(to: Tag, from: Tag) {
    || to == from
    || (from.IsNumeric() && (to.IsNumeric() || to.Boolean? || (from.IntPtr? && (to.Object? || to.Exception? || to.ByRef?))))
    || from.Boolean?
    || (from.ByRef? && to.ByRef?)
    || (!from.IsNumeric() && !from.Boolean? && !from.ByRef? && to.ByRef?)
  }

  predicate IsReference(t: Tag) { t.Object? || t.Exception? }

  /** Booleans and native integers may be stored anywhere, numbers as numbers and booleans, references and managed pointers
      as managed pointers, and everything where its own type is declared. */
  lemma StorableMeaning(to: Tag, from: Tag)
    ensures IsStorable(to, from) <==>
            || to == from || from.Boolean? || from.IntPtr?
            || (from in {Int16, Int32, Int64, Single, Double} && to in {Boolean, Int16, Int32, Int64, IntPtr, Single, Double})
            || ((IsReference(from) || from.ByRef?) && to.ByRef?)
    ensures KindOf(to) == KindOf(from) && !IsReference(to) ==> IsStorable(to, from)
  {
  }

  /** What the instruction does to the types on the evaluation stack; None when it is not applicable. */
  function TypesAfter<V>(m: Method<V>, i: Instruction<V>, types: seq<Tag>): Option<seq<Tag>> {
    var n := |types|;
    match i
    case Nop => Some(types)
    case Ldc(t, _) => Some(types + [t])
    case Ldloc(x) => if x < |m.locals| then Some(types + [m.locals[x]]) else None
    case Stloc(x) => if x < |m.locals| && n >= 1 then Some(types[..n - 1]) else None
    case Dup => if n >= 1 then Some(types + [types[n - 1]]) else None
    case Pop => if n >= 1 then Some(types[..n - 1]) else None
    case Arithmetic(op) =>
      if n < 2 then None else
      (match ArithmeticTyping(op, types[n - 2], types[n - 1])
       case None => None
       case Some((_, t)) => Some(types[..n - 2] + [t]))
    case Br(_) => Some(types)
    case BrBool(_, _) => if n >= 1 then Some(types[..n - 1]) else None
    case BrCompare(_, _) => if n >= 2 then Some(types[..n - 2]) else None
    case Leave(_) => Some(types)
    case Endfinally => Some(types)
    case Throw => if n >= 1 && types[n - 1].Exception? then Some(types[..n - 1]) else None
    case Rethrow => Some(types)
    case Ret => if m.returnType.None? then Some(types) else if n >= 1 then Some(types[..n - 1]) else None
  }

  /** The conversion performed by a store or return is one the translator accepts. */
  predicate StoreAccepted<V>(m: Method<V>, i: Instruction<V>, types: seq<Tag>) {
    match i
    case Stloc(x) => x < |m.locals| && |types| >= 1 && IsStorable(m.locals[x], types[|types| - 1])
    case Ret => m.returnType.None? || (|types| >= 1 && IsStorable(m.returnType.value, types[|types| - 1]))
    case _ => true
  }

  /** The operands of an arithmetic instruction are ones for which the translator follows the standard. */
  predicate HasStandardOperands<V>(i: Instruction<V>, types: seq<Tag>) {
    i.Arithmetic? && |types| >= 2 ==> IsStandard(i.op, types[|types| - 2], types[|types| - 1])
  }

  /** A type-exact stack typing: every way of arriving at an offset brings exactly the recorded types
      (the merge rule of section III.1.8.1.3 of ECMA-335 without any merge of different types). */
  ghost predicate IsTyping<V>(m: Method<V>, typing: map<nat, seq<Tag>>) {
    && 0 in typing && typing[0] == []
    && (forall h :: h in m.handlers ==> h.start in typing && typing[h.start] == h.EntryTypes())
    && (forall o :: o in typing ==>
          && o in m.code
          && TypesAfter(m, m.code[o].instruction, typing[o]).Some?
          && StoreAccepted(m, m.code[o].instruction, typing[o]))
    && (forall o, s :: o in typing && m.IsSuccessor(o, s) ==>
          s in typing && Some(typing[s]) == TypesAfter(m, m.code[o].instruction, typing[o]))
  }

  // ---------------------------------------------------------------------------------------------
  // Meaning

  /** The meaning of the operators, shared by CIL and C and otherwise unspecified. */
  datatype Semantics<!V> = Semantics(
    arithmetic: (BinaryOperator, Tag, V, V) -> V,
    cast: (Tag, Tag, V) -> V,
    isZero: (Tag, V) -> bool,
    compare: (Comparison, Tag, V, Tag, V) -> bool)

  function Convert<V>(sem: Semantics<V>, to: Tag, from: Tag, v: V): V {
    if to == from then v else sem.cast(to, from, v)
  }

  datatype TypedValue<V> = TypedValue(tag: Tag, value: V)

  /** Both operands are brought to one type, and combined there. */
  function Combined<V>(sem: Semantics<V>, op: BinaryOperator, t: Tag, a: TypedValue<V>, b: TypedValue<V>): TypedValue<V> {
    TypedValue(t, sem.arithmetic(op, t, Convert(sem, t, a.tag, a.value), Convert(sem, t, b.tag, b.value)))
  }

  /** The meaning of an arithmetic instruction by the standard: operands are combined as values of their common kind, those
      with a managed pointer among them as native integers. */
  function StandardValue<V>(sem: Semantics<V>, op: BinaryOperator, a: TypedValue<V>, b: TypedValue<V>): Option<TypedValue<V>> {
    match BinaryNumeric(op, KindOf(a.tag), KindOf(b.tag))
    case None => None
    case Some(KManagedPointer) =>
      var t, v := TagOf(KManagedPointer, a.tag, b.tag), Combined(sem, op, IntPtr, a, b);
      Some(TypedValue(t, Convert(sem, t, IntPtr, v.value)))
    case Some(k) => Some(Combined(sem, op, TagOf(k, a.tag, b.tag), a, b))
  }

  datatype ILState<V> =
    | Running(pc: nat, stack: seq<TypedValue<V>>, locals: seq<V>)
    | Returned(result: Option<V>)
    | Stuck

  /** One step of the stack machine. */
  function ILStep<V>(m: Method<V>, sem: Semantics<V>, s: ILState<V>): ILState<V> {
    if !s.Running? then s
    else if s.pc !in m.code then Stuck
    else
      var Code(size, i) := m.code[s.pc];
      var next := s.pc + size;
      var (k, n, ls) := (s.stack, |s.stack|, s.locals);
      match i
      case Nop => Running(next, k, ls)
      case Ldc(t, v) => Running(next, k + [TypedValue(t, v)], ls)
      case Ldloc(x) =>
        if x < |m.locals| && x < |ls| then Running(next, k + [TypedValue(m.locals[x], ls[x])], ls) else Stuck
      case Stloc(x) =>
        if x < |m.locals| && x < |ls| && n >= 1
        then Running(next, k[..n - 1], ls[x := Convert(sem, m.locals[x], k[n - 1].tag, k[n - 1].value)])
        else Stuck
      case Dup => if n >= 1 then Running(next, k + [k[n - 1]], ls) else Stuck
      case Pop => if n >= 1 then Running(next, k[..n - 1], ls) else Stuck
      case Arithmetic(op) =>
        if n < 2 then Stuck else
        (match StandardValue(sem, op, k[n - 2], k[n - 1])
         case None => Stuck
         case Some(v) => Running(next, k[..n - 2] + [v], ls))
      case Br(t) => Running(t, k, ls)
      case BrBool(sense, t) =>
        if n < 1 then Stuck
        else Running(if sem.isZero(k[n - 1].tag, k[n - 1].value) != sense then t else next, k[..n - 1], ls)
      case BrCompare(c, t) =>
        if n < 2 then Stuck else
        var (a, b) := (k[n - 2], k[n - 1]);
        Running(if sem.compare(c, a.tag, a.value, b.tag, b.value) then t else next, k[..n - 2], ls)
      case Ret =>
        if m.returnType.None? then Returned(None)
        else if n >= 1
        then Returned(Some(Convert(sem, m.returnType.value, k[n - 1].tag, k[n - 1].value)))
        else Stuck
      case _ => Stuck
  }

  function ILSteps<V>(m: Method<V>, sem: Semantics<V>, s: ILState<V>, k: nat): ILState<V>
    decreases k
  {
    if k == 0 then s else ILStep(m, sem, ILSteps(m, sem, s, k - 1))
  }

  /** A step goes to a successor of its instruction, behind the end of a path only to a target; returning ends a path. */
  lemma StepsToSuccessor<V>(m: Method<V>, sem: Semantics<V>, s: ILState<V>)
    requires s.Running? && s.pc in m.code
    ensures
      var i, t := m.code[s.pc].instruction, ILStep(m, sem, s);
      && (t.Running? ==> m.IsSuccessor(s.pc, t.pc) && (i.IsEndOfPath() ==> t.pc in i.Targets()))
      && (t.Returned? ==> i.IsEndOfPath() && i.Targets() == [])
  {
  }

  function ILStart<V>(locals: seq<V>): ILState<V> { Running(0, [], locals) }
}
