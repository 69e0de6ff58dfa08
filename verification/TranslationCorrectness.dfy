/** The emitted C function behaves as the CIL method: simulation of the stack machine by the variable
    machine, step by step and over whole runs. */
module TranslationCorrectness {
  import opened Wrappers
  import opened Names
  import opened IL
  import opened CLanguage
  import opened DecodeContexts
  import opened ILConverters
  import opened AssemblyPreparer
  import opened FunctionWriter

  // ---------------------------------------------------------------------------------------------
  // Layout of the lines

  /** First line of the group of the k-th instruction. */
  ghost function Start<V>(m: Method<V>, p: PreparedMethod<V>, k: nat): nat
    requires k <= |m.offsets| && forall o :: o in m.offsets ==> Writable(p, o)
  {
    |Lines(p, m.offsets[..k])|
  }

  lemma {:induction false} GroupAt<V>(m: Method<V>, p: PreparedMethod<V>, k: nat, n: nat)
    requires k < n <= |m.offsets| && forall o :: o in m.offsets ==> Writable(p, o)
    ensures Start(m, p, k + 1) == Start(m, p, k) + |Group(p, m.offsets[k])| <= |Lines(p, m.offsets[..n])|
    ensures Lines(p, m.offsets[..n])[Start(m, p, k)..Start(m, p, k + 1)] == Group(p, m.offsets[k])
  {
    hide Group;
    assert m.offsets[..k + 1][..k] == m.offsets[..k];
    if k + 1 < n {
      assert m.offsets[..n][..n - 1] == m.offsets[..n - 1];
      GroupAt(m, p, k, n - 1);
      var shorter, g := Lines(p, m.offsets[..n - 1]), Group(p, m.offsets[n - 1]);
      assert Lines(p, m.offsets[..n]) == shorter + g;
      assert (shorter + g)[Start(m, p, k)..Start(m, p, k + 1)] == shorter[Start(m, p, k)..Start(m, p, k + 1)];
    } else {
      var before, g := Lines(p, m.offsets[..k]), Group(p, m.offsets[k]);
      assert Lines(p, m.offsets[..n]) == before + g;
      assert (before + g)[|before|..|before| + |g|] == g;
    }
  }

  lemma {:induction false} StartMonotone<V>(m: Method<V>, p: PreparedMethod<V>, i: nat, k: nat)
    requires i <= k <= |m.offsets| && forall o :: o in m.offsets ==> Writable(p, o)
    ensures Start(m, p, i) <= Start(m, p, k)
    decreases k - i
  {
    if i < k {
      GroupAt(m, p, i, k);
      StartMonotone(m, p, i + 1, k);
    }
  }

  /** Every line belongs to the group of some instruction. */
  lemma {:induction false} LineInGroup<V>(m: Method<V>, p: PreparedMethod<V>, n: nat, x: nat) returns (k: nat)
    requires n <= |m.offsets| && (forall o :: o in m.offsets ==> Writable(p, o)) && x < Start(m, p, n)
    ensures k < n && Start(m, p, k) <= x < Start(m, p, k + 1)
  {
    assert m.offsets[..n][..n - 1] == m.offsets[..n - 1];
    if x >= Start(m, p, n - 1) {
      k := n - 1;
    } else {
      k := LineInGroup(m, p, n - 1, x);
    }
  }

  /** A jump to the label of an instruction lands on the first line of its group. */
  lemma LabelFound<V>(m: Method<V>, p: PreparedMethod<V>, d: Decoding, f: Function<V>, k: nat)
    requires IsTranslation(m, p, d, f) && m.Sorted()
    requires k < |m.offsets| && m.offsets[k] in p.labelNames
    ensures FindLabel(f.body, LabelName(m.offsets[k])) == Some(Start(m, p, k))
  {
    hide IsDecoding, LabelName, Statements, Lines, DecodedAt;
    assert forall t :: t in p.labelNames ==> p.labelNames[t] == LabelName(t) by { LabelNames(m, p, d); }
    var name := LabelName(m.offsets[k]);
    var n := |m.offsets|;
    assert m.offsets[..n] == m.offsets;
    GroupAt(m, p, k, n);
    assert f.body[Start(m, p, k)] == Group(p, m.offsets[k])[0] == Label(name);
    forall x | 0 <= x < Start(m, p, k) ensures f.body[x] != Label(name) {
      StartMonotone(m, p, k, n);
      var j := LineInGroup(m, p, n, x);
      if j >= k { StartMonotone(m, p, k, j); }
      GroupAt(m, p, j, n);
      var o := m.offsets[j];
      assert f.body[x] == Group(p, o)[x - Start(m, p, j)];
      if f.body[x] == Label(name) {
        assert p.labelNames[o] == LabelName(o);
        LabelNameInjective(o, m.offsets[k]);
      }
    }
    FindLabelUnique(f.body, name, Start(m, p, k));
  }

  lemma LabelNames<V>(m: Method<V>, p: PreparedMethod<V>, d: Decoding)
    requires IsDecoding(m, p, d)
    ensures forall t :: t in p.labelNames ==> p.labelNames[t] == LabelName(t)
    ensures forall o, t :: o in p.emitters && o in m.code && t in m.code[o].instruction.Targets() ==> t in p.labelNames
  {
    hide DecodedAt;
    forall o, t | o in p.emitters && o in m.code && t in m.code[o].instruction.Targets() ensures t in p.labelNames {
      assert IsBranchTarget(m, p.emitters.Keys, t);
    }
  }

  /** The only statement of a group follows its label. */
  lemma StatementAt<V>(m: Method<V>, p: PreparedMethod<V>, d: Decoding, f: Function<V>, k: nat, st: Statement<V>)
    requires IsTranslation(m, p, d, f) && k < |m.offsets| && Writable(p, m.offsets[k]) && p.emitters[m.offsets[k]] == Some([st])
    ensures forall o :: o in m.offsets ==> Writable(p, o)
    ensures
      var line := Start(m, p, k) + |LabelLines(p, m.offsets[k])|;
      line + 1 == Start(m, p, k + 1) && line < |f.body| && f.body[line] == Execute(st)
  {
    hide IsDecoding;
    var n, o := |m.offsets|, m.offsets[k];
    GroupAt(m, p, k, n);
    assert m.offsets[..n] == m.offsets;
    assert Group(p, o)[|LabelLines(p, o)|] == Execute(st);
    assert f.body[Start(m, p, k)..Start(m, p, k + 1)][|LabelLines(p, o)|] == f.body[Start(m, p, k) + |LabelLines(p, o)|];
  }

  /** What decoding says about the group of the k-th instruction. */
  lemma GroupFacts<V>(m: Method<V>, p: PreparedMethod<V>, d: Decoding, f: Function<V>, k: nat)
    requires IsTranslation(m, p, d, f) && k < |m.offsets|
    ensures forall o :: o in m.offsets ==> Writable(p, o)
    ensures
      var o := m.offsets[k];
      && o in m.code && o in p.emitters && o in d.before && o in d.after && m.Reachable(o)
      && DecodedAt(m, d.table, o, d.before[o], d.after[o], p.emitters[o])
  {
    hide DecodedAt;
    hide m.Reachable;
    assert m.offsets[k] in m.offsets && Writable(p, m.offsets[k]);
    DecodedIsCode(m, d.table, m.offsets[k], d.before[m.offsets[k]], d.after[m.offsets[k]], p.emitters[m.offsets[k]]);
  }

  lemma DecodedIsCode<V>(m: Method<V>, table: Table, o: nat, before: seq<StackVariable>, after: seq<StackVariable>, e: Emitter<V>)
    requires DecodedAt(m, table, o, before, after, e)
    ensures o in m.code
  {
  }

  /** A translated leave names an offset that has a label in the function, where the target's group starts. */
  lemma LeaveFound<V>(m: Method<V>, p: PreparedMethod<V>, d: Decoding, f: Function<V>, k: nat)
    requires IsTranslation(m, p, d, f) && m.Sorted() && k < |m.offsets| && m.offsets[k] in m.code
    requires m.code[m.offsets[k]].instruction.Leave?
    ensures forall o :: o in m.offsets ==> Writable(p, o)
    ensures
      var line, target := Start(m, p, k) + |LabelLines(p, m.offsets[k])|, m.code[m.offsets[k]].instruction.target;
      && line < |f.body| && f.body[line] == Execute(LeaveTo(target))
      && exists j :: 0 <= j < |m.offsets| && m.offsets[j] == target && FindLabel(f.body, LabelName(target)) == Some(Start(m, p, j))
  {
    hide LabelName, DecodedAt;
    hide m.Reachable;
    var o, target := m.offsets[k], m.code[m.offsets[k]].instruction.target;
    GroupFacts(m, p, d, f, k);
    ExceptionEmission(m, d.table, o, d.before[o], d.after[o], p.emitters[o]);
    StatementAt(m, p, d, f, k, LeaveTo(target));
    LabelNames(m, p, d);
    SuccessorReachable(m, o, target);
    DecodedIsCode(m, d.table, target, d.before[target], d.after[target], p.emitters[target]);
    var j :| 0 <= j < |m.offsets| && m.offsets[j] == target;
    LabelFound(m, p, d, f, j);
  }

  lemma ExceptionEmission<V>(m: Method<V>, table: Table, o: nat, before: seq<StackVariable>, after: seq<StackVariable>, e: Emitter<V>)
    requires DecodedAt(m, table, o, before, after, e)
    ensures InTable(table, before)
    ensures
      match m.code[o].instruction
      case Leave(t) => e == Some([LeaveTo(t)])
      case Throw => |before| > 0 && before[|before| - 1].targetType.Exception? && e == Some([ThrowException(before[|before| - 1].symbolName)])
      case Rethrow => e == Some([RethrowException])
      case Endfinally => e == Some([EndFinally])
      case _ => true
  {
    hide ArithmeticTyping;
  }

  /** A translated throw throws the top variable, declared with an exception type; rethrow and endfinally take none. */
  lemma ExceptionStatements<V>(m: Method<V>, p: PreparedMethod<V>, d: Decoding, f: Function<V>, k: nat)
    requires IsTranslation(m, p, d, f) && k < |m.offsets| && m.offsets[k] in m.code
    ensures forall o :: o in m.offsets ==> Writable(p, o)
    ensures
      var o, line := m.offsets[k], Start(m, p, k) + |LabelLines(p, m.offsets[k])|;
      match m.code[o].instruction
      case Throw =>
        && line < |f.body| && o in d.before && |d.before[o]| > 0
        && var v := d.before[o][|d.before[o]| - 1];
        f.body[line] == Execute(ThrowException(v.symbolName)) && v.targetType.Exception? &&
        DeclaredType(f.declarations, v.symbolName) == Some(v.targetType)
      case Rethrow => line < |f.body| && f.body[line] == Execute(RethrowException)
      case Endfinally => line < |f.body| && f.body[line] == Execute(EndFinally)
      case _ => true
  {
    hide IsTranslation, DecodedAt;
    var o := m.offsets[k];
    GroupFacts(m, p, d, f, k);
    ExceptionEmission(m, d.table, o, d.before[o], d.after[o], p.emitters[o]);
    match m.code[o].instruction {
      case Throw =>
        var n := |d.before[o]|;
        StatementAt(m, p, d, f, k, ThrowException(d.before[o][n - 1].symbolName));
        Declared(m, p, d, f, d.before[o], n - 1);
      case Rethrow => StatementAt(m, p, d, f, k, RethrowException);
      case Endfinally => StatementAt(m, p, d, f, k, EndFinally);
      case _ =>
    }
  }

  // ---------------------------------------------------------------------------------------------
  // Variables and values

  /** Every variable holds the value at its depth. */
  ghost predicate Represents<V>(vars: seq<StackVariable>, stack: seq<TypedValue<V>>, memory: map<string, V>) {
    && |vars| == |stack|
    && forall i :: 0 <= i < |vars| ==>
         && vars[i].targetType == stack[i].tag
         && vars[i].symbolName in memory
         && memory[vars[i].symbolName] == stack[i].value
  }

  lemma {:induction false} FlattenMember(t: Table, d: nat, v: StackVariable)
    requires d < |t| && v in t[d]
    ensures v in Flatten(t)
  {
    if d > 0 {
      FlattenMember(t[1..], d - 1, v);
    }
  }

  ghost predicate NamedFrom(vars: seq<StackVariable>, depth: nat) {
    forall v :: v in vars ==> v.depth >= depth && exists i: nat :: v.symbolName == SymbolName(v.depth, i)
  }

  /** No two variables of a table share a name. */
  lemma {:induction false} FlattenUnique(t: Table, base: nat)
    requires forall d :: 0 <= d < |t| ==> WellFormedRow(base + d, t[d])
    ensures NamedFrom(Flatten(t), base)
    ensures forall i, j :: 0 <= i < j < |Flatten(t)| ==> Flatten(t)[i].symbolName != Flatten(t)[j].symbolName
  {
    if t != [] {
      var rest := Flatten(t[1..]);
      FlattenUnique(t[1..], base + 1);
      var row := t[0];
      assert WellFormedRow(base + 0, t[0]);
      forall i, j | 0 <= i < j < |Flatten(t)| ensures Flatten(t)[i].symbolName != Flatten(t)[j].symbolName {
        if Flatten(t)[i].symbolName == Flatten(t)[j].symbolName && i < |row| {
          if j < |row| {
            SymbolNameInjective(base, i, base, j);
          } else {
            var v := rest[j - |row|];
            assert v in rest;
            var x: nat :| v.symbolName == SymbolName(v.depth, x);
            SymbolNameInjective(base, i, v.depth, x);
          }
        }
      }
    }
  }

  /** Every variable the decoder handed out is declared with its type. */
  lemma Declared<V>(m: Method<V>, p: PreparedMethod<V>, d: Decoding, f: Function<V>, vars: seq<StackVariable>, i: nat)
    requires IsTranslation(m, p, d, f) && InTable(d.table, vars) && i < |vars|
    ensures DeclaredType(f.declarations, vars[i].symbolName) == Some(vars[i].targetType)
  {
    hide DecodedAt;
    hide m.Reachable;
    var t := d.table;
    FlattenUnique(t, 0);
    FlattenMember(t, i, vars[i]);
    var x :| 0 <= x < |p.stacks| && p.stacks[x] == vars[i];
    DeclaredTypeOfUnique(f.declarations, f.declarations[x]);
  }

  /** Reading the variable of a depth yields the value at that depth. */
  lemma ReadsValue<V>(m: Method<V>, p: PreparedMethod<V>, d: Decoding, f: Function<V>, vars: seq<StackVariable>,
                      stack: seq<TypedValue<V>>, memory: map<string, V>, i: nat)
    requires IsTranslation(m, p, d, f) && InTable(d.table, vars) && Represents(vars, stack, memory) && i < |vars|
    ensures Read(f, memory, vars[i].symbolName) == Some(stack[i])
  {
    hide IsTranslation;
    Declared(m, p, d, f, vars, i);
  }

  /** Assigning the variable of the next depth leaves the variables of lower depths alone. */
  lemma RepresentsPush<V>(t: Table, vars: seq<StackVariable>, stack: seq<TypedValue<V>>, memory: map<string, V>,
                          v: StackVariable, x: TypedValue<V>)
    requires WellFormedTable(t) && InTable(t, vars + [v])
    requires Represents(vars, stack, memory) && v.targetType == x.tag
    ensures Represents(vars + [v], stack + [x], memory[v.symbolName := x.value])
  {
    var all := vars + [v];
    forall i | 0 <= i < |vars| ensures vars[i].symbolName != v.symbolName {
      assert all[i] in t[i] && all[|vars|] in t[|vars|];
      assert WellFormedRow(i, t[i]) && WellFormedRow(|vars|, t[|vars|]);
      var a :| 0 <= a < |t[i]| && t[i][a] == vars[i];
      var b :| 0 <= b < |t[|vars|]| && t[|vars|][b] == v;
      if vars[i].symbolName == v.symbolName { SymbolNameInjective(i, a, |vars|, b); }
    }
  }

  lemma RepresentsPrefix<V>(vars: seq<StackVariable>, stack: seq<TypedValue<V>>, memory: map<string, V>, k: nat)
    requires Represents(vars, stack, memory) && k <= |vars|
    ensures Represents(vars[..k], stack[..k], memory)
  {
  }

  /** Depths that keep their types keep their variables. */
  lemma SameBelow(t: Table, before: seq<StackVariable>, after: seq<StackVariable>, k: nat)
    requires WellFormedTable(t) && InTable(t, before) && InTable(t, after)
    requires k <= |before| && k <= |after| && Types(before)[..k] == Types(after)[..k]
    ensures before[..k] == after[..k]
  {
    assert Types(before[..k]) == Types(before)[..k];
    assert Types(after[..k]) == Types(after)[..k];
    assert InTable(t, before[..k]) && InTable(t, after[..k]);
    TypesDetermineVariables(t, before[..k], after[..k]);
  }

  // ---------------------------------------------------------------------------------------------
  // One instruction

  /** A translated method together with its typing and the meaning of its operators. */
  datatype Translation<!V> = Translation(
    m: Method<V>, p: PreparedMethod<V>, d: Decoding, f: Function<V>, sem: Semantics<V>, typing: map<nat, seq<Tag>>)
  {
    ghost predicate Ok() {
      && m.Contiguous() && IsTranslation(m, p, d, f) && IsTyping(m, typing) && DecodedAs(typing, d)
      && (forall o :: o in m.code ==> !m.code[o].instruction.IsExceptionRelated())
      && (forall o :: o in typing && o in m.code ==> HasStandardOperands(m.code[o].instruction, typing[o]))
    }

    ghost predicate Agree(vars: seq<StackVariable>, s: ILState<V>, c: CState<V>) {
      && s.Running? && c.Executing?
      && s.locals == c.locals && |s.locals| == |m.locals|
      && Represents(vars, s.stack, c.variables)
    }

    /** The C function is about to execute statement st of the instruction i at s.pc. */
    ghost predicate At(i: Instruction<V>, before: seq<StackVariable>, after: seq<StackVariable>, st: Statement<V>,
                       s: ILState<V>, c: CState<V>)
    {
      && IsTranslation(m, p, d, f)
      && Agree(before, s, c)
      && s.pc in m.code && m.code[s.pc].instruction == i
      && InTable(d.table, before) && InTable(d.table, after) && WellFormedTable(d.table)
      && TypesAfter(m, i, Types(before)) == Some(Types(after))
      && StoreAccepted(m, i, Types(before)) && HasStandardOperands(i, Types(before))
      && Emission(m, i, before, after) == Some([st])
      && c.line < |f.body| && f.body[c.line] == Execute(st)
    }

    ghost predicate Falls(after: seq<StackVariable>, s: ILState<V>, c: CState<V>, t: ILState<V>, e: CState<V>)
      requires s.Running? && c.Executing? && s.pc in m.code
    {
      && Agree(after, t, e)
      && t.pc == s.pc + m.code[s.pc].size
      && e.line == c.line + 1
    }

    /** A conditional branch jumps on both machines or falls through on both. */
    ghost predicate Jumps(target: nat, line: nat, after: seq<StackVariable>, s: ILState<V>, c: CState<V>,
                          t: ILState<V>, e: CState<V>)
      requires s.Running? && c.Executing? && s.pc in m.code
    {
      && Agree(after, t, e)
      && ((t.pc == target && e.line == line) || (t.pc == s.pc + m.code[s.pc].size && e.line == c.line + 1))
    }
  }

  lemma PushedVariable(before: seq<StackVariable>, after: seq<StackVariable>, k: nat, t: Tag, table: Table)
    requires WellFormedTable(table) && InTable(table, before) && InTable(table, after)
    requires k <= |before| && Types(after) == Types(before)[..k] + [t]
    ensures |after| == k + 1 && after == before[..k] + [after[k]] && after[k].targetType == t
  {
    assert |Types(after)| == |after|;
    assert Types(after)[..k] == Types(before)[..k];
    SameBelow(table, before, after, k);
    assert Types(after)[k] == t;
    assert after[..k] + [after[k]] == after;
  }

  lemma PoppedVariables(before: seq<StackVariable>, after: seq<StackVariable>, k: nat, table: Table)
    requires WellFormedTable(table) && InTable(table, before) && InTable(table, after)
    requires k <= |before| && Types(after) == Types(before)[..k]
    ensures after == before[..k]
  {
    assert |Types(after)| == |after|;
    assert Types(after)[..k] == Types(before)[..k];
    SameBelow(table, before, after, k);
    assert after[..k] == after;
  }

  /** An assignment to the variable of the next depth is a push. */
  lemma {:induction false} AssignPushes<V>(r: Translation<V>, before: seq<StackVariable>, after: seq<StackVariable>, k: nat, e: Expression<V>,
                        x: TypedValue<V>, s: ILState<V>, c: CState<V>)
    requires IsTranslation(r.m, r.p, r.d, r.f) && WellFormedTable(r.d.table) && r.Agree(before, s, c)
    requires InTable(r.d.table, before) && InTable(r.d.table, after)
    requires k <= |before| && Types(after) == Types(before)[..k] + [x.tag]
    requires |after| == k + 1 && c.line < |r.f.body| && r.f.body[c.line] == Execute(Assign(after[k].symbolName, e))
    requires Evaluate(r.m, r.f, r.sem, c.variables, c.locals, e) == Some(x)
    ensures
      var d := CStep(r.m, r.f, r.sem, c);
      && d.Executing? && d.line == c.line + 1 && d.locals == c.locals
      && Represents(after, s.stack[..k] + [x], d.variables)
  {
    hide IsTranslation, Evaluate;
    PushedVariable(before, after, k, x.tag, r.d.table);
    Declared(r.m, r.p, r.d, r.f, after, k);
    RepresentsPrefix(before, s.stack, c.variables, k);
    RepresentsPush(r.d.table, before[..k], s.stack[..k], c.variables, after[k], x);
  }

  lemma StepPush<V>(r: Translation<V>, i: Instruction<V>, before: seq<StackVariable>, after: seq<StackVariable>,
                    st: Statement<V>, s: ILState<V>, c: CState<V>)
    requires r.At(i, before, after, st, s, c) && (i.Ldc? || i.Ldloc? || i.Dup?)
    ensures r.Falls(after, s, c, ILStep(r.m, r.sem, s), CStep(r.m, r.f, r.sem, c))
  {
    hide IsTranslation, CStep;
    var n := |before|;
    var x :=
      match i
      case Ldc(t, v) => TypedValue(t, v)
      case Ldloc(y) => TypedValue(r.m.locals[y], s.locals[y])
      case Dup => s.stack[n - 1];
    assert Types(before)[..n] == Types(before) && s.stack[..n] == s.stack;
    assert |Types(after)| == |after|;
    if i.Dup? { ReadsValue(r.m, r.p, r.d, r.f, before, s.stack, c.variables, n - 1); }
    AssignPushes(r, before, after, n, st.rhs, x, s, c);
  }

  /** The two operand variables are combined as the two topmost stack values are. */
  lemma ArithmeticValue<V>(r: Translation<V>, op: BinaryOperator, before: seq<StackVariable>, s: ILState<V>, c: CState<V>)
    requires IsTranslation(r.m, r.p, r.d, r.f) && InTable(r.d.table, before) && r.Agree(before, s, c)
    requires |before| >= 2 && IsStandard(op, before[|before| - 2].targetType, before[|before| - 1].targetType)
    requires ArithmeticTyping(op, before[|before| - 2].targetType, before[|before| - 1].targetType).Some?
    ensures
      var n := |before|;
      var (a, b) := (s.stack[n - 2], s.stack[n - 1]);
      var (form, t) := ArithmeticTyping(op, a.tag, b.tag).value;
      var v := StandardValue(r.sem, op, a, b);
      && v.Some? && v.value.tag == t
      && Evaluate(r.m, r.f, r.sem, c.variables, c.locals, FormExpression(form, t, op, before[n - 2].symbolName, before[n - 1].symbolName)) == v
  {
    hide IsTranslation, ArithmeticTyping, IsStandard, StandardValue, FormExpression, Evaluate;
    var n := |before|;
    ReadsValue(r.m, r.p, r.d, r.f, before, s.stack, c.variables, n - 2);
    ReadsValue(r.m, r.p, r.d, r.f, before, s.stack, c.variables, n - 1);
    EmittedArithmetic(r.m, r.f, r.sem, c.variables, c.locals, op, before[n - 2].symbolName, before[n - 1].symbolName, s.stack[n - 2], s.stack[n - 1]);
  }

  lemma StepArithmetic<V>(r: Translation<V>, op: BinaryOperator, before: seq<StackVariable>, after: seq<StackVariable>,
                          st: Statement<V>, s: ILState<V>, c: CState<V>)
    requires r.At(Arithmetic(op), before, after, st, s, c)
    ensures r.Falls(after, s, c, ILStep(r.m, r.sem, s), CStep(r.m, r.f, r.sem, c))
  {
    hide IsTranslation, ArithmeticTyping, IsStandard, StandardValue, FormExpression, Evaluate, CStep;
    var n := |before|;
    var a, b := s.stack[n - 2], s.stack[n - 1];
    assert Types(before)[n - 2] == a.tag && Types(before)[n - 1] == b.tag;
    ArithmeticValue(r, op, before, s, c);
    assert |Types(after)| == |after|;
    AssignPushes(r, before, after, n - 2, st.rhs, StandardValue(r.sem, op, a, b).value, s, c);
  }

  /** For other operands the two machines part: CIL has no value, or one of another type than the variable's. */
  lemma NonstandardDisagrees<V>(r: Translation<V>, op: BinaryOperator, before: seq<StackVariable>, after: seq<StackVariable>, s: ILState<V>, c: CState<V>)
    requires r.Agree(before, s, c) && s.pc in r.m.code && r.m.code[s.pc].instruction == Arithmetic(op)
    requires TypesAfter(r.m, Arithmetic(op), Types(before)) == Some(Types(after)) && !HasStandardOperands(r.m.code[s.pc].instruction, Types(before))
    ensures forall e :: !r.Agree(after, ILStep(r.m, r.sem, s), e)
  {
    hide ArithmeticTyping, BinaryNumeric;
    var n := |before|;
    var a, b := s.stack[n - 2], s.stack[n - 1];
    assert Types(before)[n - 2] == a.tag && Types(before)[n - 1] == b.tag && |Types(after)| == |after| == n - 1;
    TypingIsStandard(op, a.tag, b.tag);
    var t := ILStep(r.m, r.sem, s);
    assert t.Running? ==> Types(after)[n - 2] != t.stack[n - 2].tag;
  }

  /** The right-hand side of a store evaluates to the converted value. */
  lemma StoredValue<V>(r: Translation<V>, to: Tag, before: seq<StackVariable>, s: ILState<V>, c: CState<V>)
    requires IsTranslation(r.m, r.p, r.d, r.f) && InTable(r.d.table, before) && r.Agree(before, s, c)
    requires |before| >= 1 && IsStorable(to, before[|before| - 1].targetType)
    ensures
      var x := s.stack[|before| - 1];
      && RightExpression<V>(to, before[|before| - 1]).Some?
      && Evaluate(r.m, r.f, r.sem, c.variables, c.locals, RightExpression<V>(to, before[|before| - 1]).value)
         == Some(TypedValue(to, Convert(r.sem, to, x.tag, x.value)))
  {
    hide IsTranslation;
    ReadsValue(r.m, r.p, r.d, r.f, before, s.stack, c.variables, |before| - 1);
  }

  lemma StepStore<V>(r: Translation<V>, x: nat, before: seq<StackVariable>, after: seq<StackVariable>,
                     st: Statement<V>, s: ILState<V>, c: CState<V>)
    requires r.At(Stloc(x), before, after, st, s, c)
    ensures r.Falls(after, s, c, ILStep(r.m, r.sem, s), CStep(r.m, r.f, r.sem, c))
  {
    hide IsTranslation, IsStorable;
    var n := |before|;
    assert Types(before)[n - 1] == before[n - 1].targetType;
    StoredValue(r, r.m.locals[x], before, s, c);
    PoppedVariables(before, after, n - 1, r.d.table);
    RepresentsPrefix(before, s.stack, c.variables, n - 1);
  }

  lemma StepReturn<V>(r: Translation<V>, before: seq<StackVariable>, after: seq<StackVariable>,
                      st: Statement<V>, s: ILState<V>, c: CState<V>)
    requires r.At(Ret, before, after, st, s, c)
    ensures
      var t := ILStep(r.m, r.sem, s);
      t.Returned? && CStep(r.m, r.f, r.sem, c) == Finished(t.result)
  {
    hide IsTranslation, IsStorable;
    if r.m.returnType.Some? {
      assert Types(before)[|before| - 1] == before[|before| - 1].targetType;
      StoredValue(r, r.m.returnType.value, before, s, c);
    }
  }

  lemma StepGoto<V>(r: Translation<V>, target: nat, before: seq<StackVariable>, after: seq<StackVariable>,
                    st: Statement<V>, s: ILState<V>, c: CState<V>, line: nat)
    requires r.At(Br(target), before, after, st, s, c)
    requires FindLabel(r.f.body, LabelName(target)) == Some(line)
    ensures
      var t, e := ILStep(r.m, r.sem, s), CStep(r.m, r.f, r.sem, c);
      r.Agree(after, t, e) && t.pc == target && e.line == line
  {
    hide IsTranslation;
    var n := |before|;
    assert Types(before)[..n] == Types(before);
    PoppedVariables(before, after, n, r.d.table);
    assert before[..n] == before;
  }

  lemma StepBool<V>(r: Translation<V>, sense: bool, target: nat, before: seq<StackVariable>, after: seq<StackVariable>,
                    st: Statement<V>, s: ILState<V>, c: CState<V>, line: nat)
    requires r.At(BrBool(sense, target), before, after, st, s, c)
    requires FindLabel(r.f.body, LabelName(target)) == Some(line)
    ensures r.Jumps(target, line, after, s, c, ILStep(r.m, r.sem, s), CStep(r.m, r.f, r.sem, c))
  {
    hide IsTranslation;
    var n := |before|;
    PoppedVariables(before, after, n - 1, r.d.table);
    ReadsValue(r.m, r.p, r.d, r.f, before, s.stack, c.variables, n - 1);
    RepresentsPrefix(before, s.stack, c.variables, n - 1);
  }

  lemma StepCompare<V>(r: Translation<V>, x: Comparison, target: nat, before: seq<StackVariable>, after: seq<StackVariable>,
                       st: Statement<V>, s: ILState<V>, c: CState<V>, line: nat)
    requires r.At(BrCompare(x, target), before, after, st, s, c)
    requires FindLabel(r.f.body, LabelName(target)) == Some(line)
    ensures r.Jumps(target, line, after, s, c, ILStep(r.m, r.sem, s), CStep(r.m, r.f, r.sem, c))
  {
    hide IsTranslation, LabelName, SymbolName, ArithmeticTyping, IsStorable;
    var n := |before|;
    PoppedVariables(before, after, n - 2, r.d.table);
    ReadsValue(r.m, r.p, r.d, r.f, before, s.stack, c.variables, n - 2);
    ReadsValue(r.m, r.p, r.d, r.f, before, s.stack, c.variables, n - 1);
    RepresentsPrefix(before, s.stack, c.variables, n - 2);
  }

  /** nop and pop leave no statement behind. */
  lemma StepSilent<V>(r: Translation<V>, i: Instruction<V>, before: seq<StackVariable>, after: seq<StackVariable>,
                      s: ILState<V>, c: CState<V>)
    requires r.Agree(before, s, c) && s.pc in r.m.code && r.m.code[s.pc].instruction == i && (i.Nop? || i.Pop?)
    requires InTable(r.d.table, before) && InTable(r.d.table, after) && WellFormedTable(r.d.table)
    requires TypesAfter(r.m, i, Types(before)) == Some(Types(after))
    ensures
      var t := ILStep(r.m, r.sem, s);
      r.Agree(after, t, c) && t.pc == s.pc + r.m.code[s.pc].size
  {
    var k := if i.Nop? then |before| else |before| - 1;
    assert Types(before)[..|before|] == Types(before);
    PoppedVariables(before, after, k, r.d.table);
    RepresentsPrefix(before, s.stack, c.variables, k);
    assert before[..|before|] == before && s.stack[..|s.stack|] == s.stack;
  }

  // ---------------------------------------------------------------------------------------------
  // Whole runs

  /** The IL machine is at the k-th instruction and the C machine at the first line of its group. */
  ghost predicate Related<V>(r: Translation<V>, k: nat, s: ILState<V>, c: CState<V>)
    requires forall o :: o in r.m.offsets ==> Writable(r.p, o)
  {
    && k < |r.m.offsets|
    && s.Running? && s.pc == r.m.offsets[k] && s.pc in r.d.before
    && r.Agree(r.d.before[s.pc], s, c)
    && c.line == Start(r.m, r.p, k)
  }

  lemma DecodedFacts<V>(r: Translation<V>, o: nat)
    requires r.Ok() && o in r.m.offsets
    ensures o in r.m.code && o in r.p.emitters && o in r.d.before && o in r.d.after && WellFormedTable(r.d.table)
    ensures DecodedAt(r.m, r.d.table, o, r.d.before[o], r.d.after[o], r.p.emitters[o])
    ensures StoreAccepted(r.m, r.m.code[o].instruction, Types(r.d.before[o]))
    ensures HasStandardOperands(r.m.code[o].instruction, Types(r.d.before[o]))
    ensures forall s :: r.m.IsSuccessor(o, s) ==> s in r.m.offsets && s in r.d.before && r.d.before[s] == r.d.after[o]
    ensures r.m.code[o].instruction.Targets() != [] ==> r.m.code[o].instruction.target in r.p.labelNames
  {
    hide Emission, TypesAfter, StoreAccepted;
    hide r.m.Reachable;
    LabelNames(r.m, r.p, r.d);
    assert Writable(r.p, o);
    assert DecodedAt(r.m, r.d.table, o, r.d.before[o], r.d.after[o], r.p.emitters[o]);
    forall s | r.m.IsSuccessor(o, s) ensures s in r.m.offsets && s in r.d.before && r.d.before[s] == r.d.after[o] {
      assert s in r.typing;
      assert Writable(r.p, s);
      assert DecodedAt(r.m, r.d.table, s, r.d.before[s], r.d.after[s], r.p.emitters[s]);
      TypesDetermineVariables(r.d.table, r.d.before[s], r.d.after[o]);
    }
  }

  /** The instruction after the k-th one is the (k+1)-th. */
  lemma NextInstruction<V>(m: Method<V>, k: nat)
    requires m.Contiguous() && k < |m.offsets|
    requires m.offsets[k] + m.code[m.offsets[k]].size in m.offsets
    ensures k + 1 < |m.offsets| && m.offsets[k + 1] == m.offsets[k] + m.code[m.offsets[k]].size
  {
    assert m.offsets[k] in m.offsets;
    var j :| 0 <= j < |m.offsets| && m.offsets[j] == m.offsets[k] + m.code[m.offsets[k]].size;
    assert j > k;
  }

  /** Emitters of the modelled instructions hold at most one statement, and none only for nop and pop. */
  lemma EmissionShape<V>(m: Method<V>, i: Instruction<V>, before: seq<StackVariable>, after: seq<StackVariable>)
    requires TypesAfter(m, i, Types(before)) == Some(Types(after)) && StoreAccepted(m, i, Types(before))
    ensures
      var e := Emission(m, i, before, after);
      e.Some? && (if i.Nop? || i.Pop? then e.value == [] else |e.value| == 1 && e == Some([e.value[0]]))
  {
    AcceptedStoreEmits(m, i, before, after);
    hide ArithmeticTyping, IsStorable;
  }

  /** What one IL step leads to: x C steps have been done before it and y after it. */
  ghost predicate Progress<V>(r: Translation<V>, k: nat, t: ILState<V>, e: CState<V>, j: nat, x: nat, y: nat)
    requires forall o :: o in r.m.offsets ==> Writable(r.p, o)
  {
    && y >= x
    && ((t.Returned? && e == Finished(t.result)) || (Related(r, j, t, e) && (y > x || j == k + 1)))
  }

  lemma StepNext<V>(r: Translation<V>, k: nat, after: seq<StackVariable>, s: ILState<V>, c: CState<V>)
    requires r.m.Contiguous() && (forall o :: o in r.m.offsets ==> Writable(r.p, o))
    requires k < |r.m.offsets| && r.Agree(after, s, c)
    requires s.pc in r.m.offsets && s.pc in r.d.before && r.d.before[s.pc] == after
    requires s.pc == r.m.offsets[k] + r.m.code[r.m.offsets[k]].size
    requires c.line == Start(r.m, r.p, k + 1)
    ensures Related(r, k + 1, s, c)
  {
    NextInstruction(r.m, k);
  }

  lemma AllWritable<V>(r: Translation<V>)
    requires IsTranslation(r.m, r.p, r.d, r.f)
    ensures forall o :: o in r.m.offsets ==> Writable(r.p, o)
  {
  }

  lemma BodyLines<V>(r: Translation<V>)
    requires IsTranslation(r.m, r.p, r.d, r.f)
    ensures r.f.body == Lines(r.p, r.m.offsets[..|r.m.offsets|])
  {
    hide IsDecoding;
    assert r.m.offsets[..|r.m.offsets|] == r.m.offsets;
  }

  lemma AgreeRuns<V>(r: Translation<V>, vars: seq<StackVariable>, s: ILState<V>, c: CState<V>)
    requires r.Agree(vars, s, c)
    ensures s.Running? && c.Executing?
  {
  }

  /** The label of a group is a line of its own that only moves on. */
  lemma LabelStep<V>(r: Translation<V>, k: nat, s: ILState<V>, c: CState<V>)
    requires r.Ok() && Related(r, k, s, c) && s.pc in r.p.labelNames
    ensures r.Agree(r.d.before[s.pc], s, CStep(r.m, r.f, r.sem, c))
    ensures CStep(r.m, r.f, r.sem, c).line == c.line + 1
  {
    hide IsDecoding, IsTyping;
    var n := |r.m.offsets|;
    GroupAt(r.m, r.p, k, n);
    BodyLines(r);
    var g := Group(r.p, s.pc);
    assert r.f.body[c.line] == Lines(r.p, r.m.offsets[..n])[Start(r.m, r.p, k)..Start(r.m, r.p, k + 1)][0] == g[0];
  }

  /** The statement of a group, for every instruction that has one. */
  lemma StepStatement<V>(r: Translation<V>, k: nat, i: Instruction<V>, before: seq<StackVariable>,
                         after: seq<StackVariable>, st: Statement<V>, s: ILState<V>, c: CState<V>) returns (j: nat)
    requires r.Ok() && k < |r.m.offsets| && r.At(i, before, after, st, s, c) && s.pc == r.m.offsets[k]
    requires s.pc in r.d.after && after == r.d.after[s.pc]
    requires c.line + 1 == Start(r.m, r.p, k + 1) && !i.Nop? && !i.Pop?
    ensures
      var t, e := ILStep(r.m, r.sem, s), CStep(r.m, r.f, r.sem, c);
      (t.Returned? && e == Finished(t.result)) || Related(r, j, t, e)
  {
    hide ILStep, CStep, Emission, TypesAfter, StoreAccepted, IsTranslation, IsTyping;
    var t, e := ILStep(r.m, r.sem, s), CStep(r.m, r.f, r.sem, c);
    DecodedFacts(r, s.pc);
    AllWritable(r);
    j := k + 1;
    if i.Ret? {
      StepReturn(r, before, after, st, s, c);
    } else if i.Br? || i.BrBool? || i.BrCompare? {
      assert r.m.IsSuccessor(s.pc, i.target);
      var x :| 0 <= x < |r.m.offsets| && r.m.offsets[x] == i.target;
      LabelFound(r.m, r.p, r.d, r.f, x);
      var line := Start(r.m, r.p, x);
      match i {
        case Br(y) => StepGoto(r, y, before, after, st, s, c, line);
        case BrBool(sense, y) => StepBool(r, sense, y, before, after, st, s, c, line);
        case BrCompare(z, y) => StepCompare(r, z, y, before, after, st, s, c, line);
      }
      if t.pc == i.target && e.line == line {
        j := x;
      } else {
        assert r.m.IsSuccessor(s.pc, t.pc);
        StepNext(r, k, after, t, e);
      }
    } else {
      match i {
        case Ldc(_, _) => StepPush(r, i, before, after, st, s, c);
        case Ldloc(_) => StepPush(r, i, before, after, st, s, c);
        case Dup => StepPush(r, i, before, after, st, s, c);
        case Stloc(x) => StepStore(r, x, before, after, st, s, c);
        case Arithmetic(op) => StepArithmetic(r, op, before, after, st, s, c);
      }
      assert r.m.IsSuccessor(s.pc, t.pc);
      StepNext(r, k, after, t, e);
    }
  }

  /** The only statement of a group follows its label. */
  lemma StatementLine<V>(r: Translation<V>, k: nat, o: nat, st: Statement<V>)
    requires IsTranslation(r.m, r.p, r.d, r.f) && (forall x :: x in r.m.offsets ==> Writable(r.p, x))
    requires k < |r.m.offsets| && o == r.m.offsets[k] && o in r.m.offsets && r.p.emitters[o] == Some([st])
    ensures
      var line := Start(r.m, r.p, k) + |LabelLines(r.p, o)|;
      line + 1 == Start(r.m, r.p, k + 1) && line < |r.f.body| && r.f.body[line] == Execute(st)
  {
    hide IsDecoding;
    StatementAt(r.m, r.p, r.d, r.f, k, st);
  }

  lemma SilentFrom<V>(r: Translation<V>, k: nat, i: Instruction<V>, before: seq<StackVariable>, after: seq<StackVariable>,
                      s: ILState<V>, e: CState<V>)
    requires r.Ok() && (forall x :: x in r.m.offsets ==> Writable(r.p, x))
    requires k < |r.m.offsets| && s.Running? && s.pc == r.m.offsets[k] && s.pc in r.d.before
    requires r.Agree(r.d.before[s.pc], s, e)
    requires e.line == Start(r.m, r.p, k) + |LabelLines(r.p, s.pc)|
    requires i == r.m.code[s.pc].instruction && (i.Nop? || i.Pop?) && before == r.d.before[s.pc] && after == r.d.after[s.pc]
    ensures Related(r, k + 1, ILStep(r.m, r.sem, s), e)
  {
    hide ILStep, CStep, Emission, TypesAfter, StoreAccepted, IsDecoding, IsTyping, Related;
    hide r.Agree;
    var o := s.pc;
    DecodedFacts(r, o);
    EmissionShape(r.m, i, before, after);
    AgreeRuns(r, before, s, e);
    StepSilent(r, i, before, after, s, e);
    var t := ILStep(r.m, r.sem, s);
    AgreeRuns(r, after, t, e);
    assert r.m.IsSuccessor(o, t.pc);
    GroupAt(r.m, r.p, k, |r.m.offsets|);
    StepNext(r, k, after, t, e);
  }

  /** From behind the label of its group, an instruction takes one C step or none. */
  lemma StepFrom<V>(r: Translation<V>, k: nat, s: ILState<V>, e: CState<V>) returns (j: nat, silent: bool)
    requires r.Ok() && (forall x :: x in r.m.offsets ==> Writable(r.p, x))
    requires k < |r.m.offsets| && s.Running? && s.pc == r.m.offsets[k] && s.pc in r.d.before
    requires r.Agree(r.d.before[s.pc], s, e)
    requires e.line == Start(r.m, r.p, k) + |LabelLines(r.p, s.pc)|
    ensures
      var t, e' := ILStep(r.m, r.sem, s), if silent then e else CStep(r.m, r.f, r.sem, e);
      (t.Returned? && e' == Finished(t.result)) || (Related(r, j, t, e') && (silent ==> j == k + 1))
  {
    hide ILStep, CStep, Emission, TypesAfter, StoreAccepted, IsDecoding, IsTyping, Related, LabelName, SymbolName, Group;
    hide r.Agree;
    var o := s.pc;
    DecodedFacts(r, o);
    var i, before, after := r.m.code[o].instruction, r.d.before[o], r.d.after[o];
    EmissionShape(r.m, i, before, after);
    AgreeRuns(r, before, s, e);
    if i.Nop? || i.Pop? {
      SilentFrom(r, k, i, before, after, s, e);
      j, silent := k + 1, true;
    } else {
      var st := Emission(r.m, i, before, after).value[0];
      StatementLine(r, k, o, st);
      silent := false;
      j := StepStatement(r, k, i, before, after, st, s, e);
    }
  }

  /** One IL step is matched by the lines of its group. */
  lemma Step<V>(r: Translation<V>, start: CState<V>, k: nat, s: ILState<V>, x: nat) returns (j: nat, y: nat)
    requires r.Ok() && (forall o :: o in r.m.offsets ==> Writable(r.p, o))
    requires Related(r, k, s, CSteps(r.m, r.f, r.sem, start, x))
    ensures Progress(r, k, ILStep(r.m, r.sem, s), CSteps(r.m, r.f, r.sem, start, y), j, x, y)
  {
    hide ILStep, CStep, IsTranslation, IsTyping;
    hide r.Agree;
    var c := CSteps(r.m, r.f, r.sem, start, x);
    y := x;
    AgreeRuns(r, r.d.before[s.pc], s, c);
    if s.pc in r.p.labelNames {
      y := x + 1;
      LabelStep(r, k, s, c);
    }
    var e := CSteps(r.m, r.f, r.sem, start, y);
    AgreeRuns(r, r.d.before[s.pc], s, e);
    var silent;
    j, silent := StepFrom(r, k, s, e);
    if !silent {
      y := y + 1;
    }
  }

  /** Enough C steps for n IL steps: every C step pays for a whole pass over the instructions. */
  ghost predicate Pays(offsets: nat, j: nat, y: nat, n: nat) {
    y * (offsets + 1) + j >= n
  }

  /** An IL run of n steps is matched by a C run that is long enough. */
  ghost predicate Matched<V>(r: Translation<V>, t: ILState<V>, e: CState<V>, j: nat, y: nat, n: nat)
    requires forall o :: o in r.m.offsets ==> Writable(r.p, o)
  {
    || (t.Returned? && e == Finished(t.result))
    || (Related(r, j, t, e) && Pays(|r.m.offsets|, j, y, n))
  }

  lemma {:induction false} LockStep<V>(r: Translation<V>, locals: seq<V>, n: nat) returns (j: nat, y: nat)
    requires r.Ok() && (forall o :: o in r.m.offsets ==> Writable(r.p, o)) && |locals| == |r.m.locals|
    ensures Matched(r, ILSteps(r.m, r.sem, ILStart(locals), n), CSteps(r.m, r.f, r.sem, CStart(locals), y), j, y, n)
  {
    hide ILStep, CStep, Related, Pays;
    hide r.Ok;
    if n == 0 {
      j, y := 0, 0;
      StartRelated(r, locals);
      assert Pays(|r.m.offsets|, 0, 0, 0) by { NoStepsToPay(|r.m.offsets|); }
    } else {
      j, y := LockStep(r, locals, n - 1);
      j, y := LockStepOnce(r, locals, n, j, y);
    }
  }

  lemma LockStepOnce<V>(r: Translation<V>, locals: seq<V>, n: nat, k: nat, x: nat) returns (j: nat, y: nat)
    requires r.Ok() && (forall o :: o in r.m.offsets ==> Writable(r.p, o)) && n > 0
    requires Matched(r, ILSteps(r.m, r.sem, ILStart(locals), n - 1), CSteps(r.m, r.f, r.sem, CStart(locals), x), k, x, n - 1)
    ensures Matched(r, ILSteps(r.m, r.sem, ILStart(locals), n), CSteps(r.m, r.f, r.sem, CStart(locals), y), j, y, n)
  {
    hide ILStep, CStep, Pays;
    hide r.Agree;
    var s := ILSteps(r.m, r.sem, ILStart(locals), n - 1);
    if s.Returned? {
      ILReturnedStays(r.m, r.sem, s);
      j, y := k, x;
    } else {
      j, y := Step(r, CStart(locals), k, s, x);
      if y > x || j == k + 1 { MoreSteps(|r.m.offsets|, x, y, j, k, n); }
    }
  }

  lemma NoStepsToPay(offsets: nat)
    ensures Pays(offsets, 0, 0, 0)
  {
  }

  lemma MoreSteps(offsets: nat, x: nat, y: nat, j: nat, k: nat, n: nat)
    requires y >= x && (y > x || j == k + 1) && k < offsets && n > 0 && Pays(offsets, k, x, n - 1)
    ensures Pays(offsets, j, y, n)
  {
    if y > x {
      assert y * (offsets + 1) >= (x + 1) * (offsets + 1);
    }
  }

  lemma EnoughSteps(offsets: nat, j: nat, y: nat, x: nat)
    requires Pays(offsets, j, y, (x + 1) * (offsets + 1)) && j < offsets
    ensures y > x
  {
    assert (x + 1) * (offsets + 1) == x * (offsets + 1) + (offsets + 1);
    assert y * (offsets + 1) - x * (offsets + 1) == (y - x) * (offsets + 1);
  }

  lemma ILReturnedStays<V>(m: Method<V>, sem: Semantics<V>, s: ILState<V>)
    requires s.Returned?
    ensures ILStep(m, sem, s) == s
  {
  }

  lemma StartRelated<V>(r: Translation<V>, locals: seq<V>)
    requires r.Ok() && (forall o :: o in r.m.offsets ==> Writable(r.p, o)) && |locals| == |r.m.locals|
    ensures Related(r, 0, ILStart(locals), CStart(locals))
  {
    hide IsTranslation;
    assert r.m.offsets[0] in r.m.offsets;
    DecodedFacts(r, 0);
    assert Types(r.d.before[0]) == [];
    assert |Types(r.d.before[0])| == |r.d.before[0]|;
    assert r.m.offsets[..0] == [];
  }

  lemma {:induction false} CStops<V>(m: Method<V>, f: Function<V>, sem: Semantics<V>, s: CState<V>, x: nat, y: nat)
    requires x <= y && !CSteps(m, f, sem, s, x).Executing?
    ensures CSteps(m, f, sem, s, y) == CSteps(m, f, sem, s, x)
  {
    if x < y {
      CStops(m, f, sem, s, x, y - 1);
    }
  }

  /** However long the C function runs, the CIL method accounts for it. */
  lemma CRunMatched<V>(r: Translation<V>, locals: seq<V>, x: nat) returns (n: nat, y: nat)
    requires r.Ok() && (forall o :: o in r.m.offsets ==> Writable(r.p, o)) && |locals| == |r.m.locals|
    ensures
      var t := ILSteps(r.m, r.sem, ILStart(locals), n);
      var e := CSteps(r.m, r.f, r.sem, CStart(locals), y);
      (t.Returned? && e == Finished(t.result)) || (t.Running? && e.Executing? && y > x)
  {
    hide ILStep, CStep, ILSteps, CSteps;
    hide r.Ok;
    n := (x + 1) * (|r.m.offsets| + 1);
    var j;
    j, y := LockStep(r, locals, n);
    var t := ILSteps(r.m, r.sem, ILStart(locals), n);
    var e := CSteps(r.m, r.f, r.sem, CStart(locals), y);
    if !t.Returned? {
      RelatedRuns(r, j, t, e);
      EnoughSteps(|r.m.offsets|, j, y, x);
    }
  }

  ghost predicate ILReturns<V>(r: Translation<V>, locals: seq<V>, v: Option<V>) {
    exists n :: ILSteps(r.m, r.sem, ILStart(locals), n) == Returned(v)
  }

  ghost predicate CReturns<V>(r: Translation<V>, locals: seq<V>, v: Option<V>) {
    exists y :: CSteps(r.m, r.f, r.sem, CStart(locals), y) == Finished(v)
  }

  /** Main theorem. The CIL method returns a value exactly when the emitted C function returns it; the
      stack machine never gets stuck and the C function never does anything undefined. */
  lemma TranslationPreservesMeaning<V>(r: Translation<V>, locals: seq<V>)
    requires r.Ok() && |locals| == |r.m.locals|
    ensures forall v :: ILReturns(r, locals, v) <==> CReturns(r, locals, v)
    ensures forall n :: !ILSteps(r.m, r.sem, ILStart(locals), n).Stuck?
    ensures forall y :: !CSteps(r.m, r.f, r.sem, CStart(locals), y).Undefined?
  {
    hide ILStep, CStep, ILSteps, CSteps;
    hide r.Ok;
    forall n ensures !ILSteps(r.m, r.sem, ILStart(locals), n).Stuck? {
      var _ := ForwardRun(r, locals, n);
    }
    forall x ensures !CSteps(r.m, r.f, r.sem, CStart(locals), x).Undefined? {
      var _ := BackwardRun(r, locals, x);
    }
    forall v ensures ILReturns(r, locals, v) <==> CReturns(r, locals, v) {
      ReturnsSame(r, locals, v);
    }
  }

  lemma ReturnsSame<V>(r: Translation<V>, locals: seq<V>, v: Option<V>)
    requires r.Ok() && |locals| == |r.m.locals|
    ensures ILReturns(r, locals, v) <==> CReturns(r, locals, v)
  {
    hide ILStep, CStep, ILSteps, CSteps;
    hide r.Ok;
    if n :| ILSteps(r.m, r.sem, ILStart(locals), n) == Returned(v) {
      var y := ForwardRun(r, locals, n);
      assert CSteps(r.m, r.f, r.sem, CStart(locals), y) == Finished(v);
    }
    if x :| CSteps(r.m, r.f, r.sem, CStart(locals), x) == Finished(v) {
      var n := BackwardRun(r, locals, x);
      assert ILSteps(r.m, r.sem, ILStart(locals), n) == Returned(v);
    }
  }

  lemma ForwardRun<V>(r: Translation<V>, locals: seq<V>, n: nat) returns (y: nat)
    requires r.Ok() && |locals| == |r.m.locals|
    ensures
      var t := ILSteps(r.m, r.sem, ILStart(locals), n);
      !t.Stuck? && (t.Returned? ==> CSteps(r.m, r.f, r.sem, CStart(locals), y) == Finished(t.result))
  {
    AllWritable(r);
    hide ILStep, CStep, ILSteps, CSteps;
    hide r.Ok;
    var j;
    j, y := LockStep(r, locals, n);
    RelatedRuns(r, j, ILSteps(r.m, r.sem, ILStart(locals), n), CSteps(r.m, r.f, r.sem, CStart(locals), y));
  }

  lemma BackwardRun<V>(r: Translation<V>, locals: seq<V>, x: nat) returns (n: nat)
    requires r.Ok() && |locals| == |r.m.locals|
    ensures
      var e := CSteps(r.m, r.f, r.sem, CStart(locals), x);
      !e.Undefined? && (e.Finished? ==> ILSteps(r.m, r.sem, ILStart(locals), n) == Returned(e.result))
  {
    AllWritable(r);
    hide ILStep, CStep, ILSteps, CSteps;
    hide r.Ok;
    var y;
    n, y := CRunMatched(r, locals, x);
    if !CSteps(r.m, r.f, r.sem, CStart(locals), x).Executing? {
      CStopsEither(r, locals, x, y);
    }
  }

  lemma RelatedRuns<V>(r: Translation<V>, j: nat, t: ILState<V>, e: CState<V>)
    requires forall o :: o in r.m.offsets ==> Writable(r.p, o)
    ensures Related(r, j, t, e) ==> t.Running? && e.Executing? && j < |r.m.offsets|
  {
  }

  /** Once the C function has stopped, it has stopped the same way at every later and earlier stop. */
  lemma {:induction false} CStopsEither<V>(r: Translation<V>, locals: seq<V>, x: nat, y: nat)
    requires !CSteps(r.m, r.f, r.sem, CStart(locals), x).Executing?
    ensures y > x ==> !CSteps(r.m, r.f, r.sem, CStart(locals), y).Executing?
    ensures !CSteps(r.m, r.f, r.sem, CStart(locals), y).Executing? ==>
              CSteps(r.m, r.f, r.sem, CStart(locals), y) == CSteps(r.m, r.f, r.sem, CStart(locals), x)
  {
    hide CStep;
    if x <= y {
      CStops(r.m, r.f, r.sem, CStart(locals), x, y);
    } else if !CSteps(r.m, r.f, r.sem, CStart(locals), y).Executing? {
      CStops(r.m, r.f, r.sem, CStart(locals), y, x);
    }
  }
}
