/** Writes the C function body in offset order (IL2C.Core/Writers/FunctionWriter.cs). */
module FunctionWriter {
  import opened Wrappers
  import opened IL
  import opened CLanguage
  import opened DecodeContexts
  import opened ILConverters
  import opened AssemblyPreparer

  datatype WriteError = NoEmitter(offset: nat) | InvalidStore(offset: nat)

  function Statements<V>(statements: seq<Statement<V>>): (lines: seq<Line<V>>)
    ensures |lines| == |statements|
    ensures forall i :: 0 <= i < |lines| ==> lines[i] == Execute(statements[i])
  {
    seq(|statements|, i requires 0 <= i < |statements| => Execute(statements[i]))
  }

  function LabelLines<V>(p: PreparedMethod<V>, o: nat): seq<Line<V>> {
    if o in p.labelNames then [Label(p.labelNames[o])] else []
  }

  ghost predicate Writable<V>(p: PreparedMethod<V>, o: nat) {
    o in p.emitters && p.emitters[o].Some?
  }

  /** The lines of one instruction: its label when something jumps to it, then its statements. */
  ghost function Group<V>(p: PreparedMethod<V>, o: nat): seq<Line<V>>
    requires Writable(p, o)
  {
    LabelLines(p, o) + Statements(p.emitters[o].value)
  }

  ghost function Lines<V>(p: PreparedMethod<V>, offsets: seq<nat>): seq<Line<V>>
    requires forall o :: o in offsets ==> Writable(p, o)
  {
    if offsets == [] then []
    else
      var n := |offsets| - 1;
      Lines(p, offsets[..n]) + Group(p, offsets[n])
  }

  function Declarations(stacks: seq<StackVariable>): (ds: seq<Declaration>)
    ensures |ds| == |stacks|
    ensures forall i :: 0 <= i < |ds| ==> ds[i] == Declaration(stacks[i].symbolName, stacks[i].targetType)
  {
    seq(|stacks|, i requires 0 <= i < |stacks| => Declaration(stacks[i].symbolName, stacks[i].targetType))
  }

  method WriteBody<V>(m: Method<V>, p: PreparedMethod<V>) returns (r: Result<seq<Line<V>>, WriteError>)
    ensures r.Success? <==> forall o :: o in m.offsets ==> Writable(p, o)
    ensures r.Success? ==> r.value == Lines(p, m.offsets)
  {
    var lines: seq<Line<V>> := [];
    var n := 0;
    while n < |m.offsets|
      invariant 0 <= n <= |m.offsets|
      invariant forall o :: o in m.offsets[..n] ==> Writable(p, o)
      invariant lines == Lines(p, m.offsets[..n])
    {
      var o := m.offsets[n];
      assert o in m.offsets;
      lines := lines + LabelLines(p, o);
      if o !in p.emitters { return Failure(NoEmitter(o)); }
      if p.emitters[o].None? { return Failure(InvalidStore(o)); }
      assert m.offsets[..n + 1][..n] == m.offsets[..n];
      lines := lines + Statements(p.emitters[o].value);
      n := n + 1;
    }
    assert m.offsets[..n] == m.offsets;
    return Success(lines);
  }

  datatype TranslateError = Preparing(e: PrepareError) | Writing(w: WriteError)

  /** f is the C function written for the decoded method p. */
  ghost predicate IsTranslation<V>(m: Method<V>, p: PreparedMethod<V>, d: Decoding, f: Function<V>) {
    && IsDecoding(m, p, d)
    && (forall o :: o in m.offsets ==> Writable(p, o))
    && f.body == Lines(p, m.offsets)
    && f.declarations == Declarations(p.stacks)
  }

  /** Decoding followed by writing. Dead code is the only reason to refuse a typed method. */
  method Translate<V(==)>(m: Method<V>, ghost typing: map<nat, seq<Tag>>)
    returns (r: Result<Function<V>, TranslateError>, ghost p: PreparedMethod<V>, ghost d: Decoding)
    requires m.Sorted()
    ensures r.Success? ==> IsTranslation(m, p, d, r.value)
    ensures r.Success? ==> forall o :: o in m.code ==> m.Reachable(o)
    ensures IsTyping(m, typing) ==> DecodedAs(typing, d)
    ensures IsTyping(m, typing) ==> (r.Success? <==> forall o :: o in m.code ==> m.Reachable(o))
  {
    var prepared;
    prepared, d := PrepareMethodBody(m, typing);
    p := PreparedMethod([], map[], map[]);
    if prepared.Failure? {
      return Failure(Preparing(prepared.error)), p, d;
    }
    p := prepared.value;
    TypedEmittersWritable(m, p, d, typing);
    var lines := WriteBody(m, prepared.value);
    if lines.Failure? {
      return Failure(Writing(lines.error)), p, d;
    }
    r := Success(Function(Declarations(prepared.value.stacks), lines.value));
  }

  /** Only a store that the typing rejects makes an emitter throw. */
  lemma AcceptedStoreEmits<V>(m: Method<V>, i: Instruction<V>, before: seq<StackVariable>, after: seq<StackVariable>)
    requires TypesAfter(m, i, Types(before)) == Some(Types(after))
    ensures StoreAccepted(m, i, Types(before)) <==> Emission(m, i, before, after).Some?
  {
    hide ArithmeticTyping;
    match i {
      case Stloc(x) =>
      case Ret =>
      case _ =>
    }
  }

  lemma TypedEmittersWritable<V>(m: Method<V>, p: PreparedMethod<V>, d: Decoding, typing: map<nat, seq<Tag>>)
    requires IsDecoding(m, p, d)
    ensures IsTyping(m, typing) && DecodedAs(typing, d) ==> forall o :: o in p.emitters ==> Writable(p, o)
  {
    if IsTyping(m, typing) && DecodedAs(typing, d) {
      hide Emission, TypesAfter, StoreAccepted;
      forall o | o in p.emitters ensures Writable(p, o) {
        AcceptedStoreEmits(m, m.code[o].instruction, d.before[o], d.after[o]);
      }
    }
  }
}
