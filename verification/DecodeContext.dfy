/** The decode context: abstract interpretation of the evaluation stack over C variables
    (IL2C.Core/Translators/DecodeContext.cs). */
module DecodeContexts {
  import opened Wrappers
  import opened Names
  import opened IL

  /** LocalVariableInformation: one C variable for a (stack depth, type) pair. */
  datatype StackVariable = StackVariable(depth: nat, symbolName: string, targetType: Tag)

  datatype StackSnapshot = StackSnapshot(offset: int, stackInformations: seq<StackVariable>)

  function Types(vars: seq<StackVariable>): (ts: seq<Tag>)
    ensures |ts| == |vars|
  {
    seq(|vars|, i requires 0 <= i < |vars| => vars[i].targetType)
  }

  /** One row of variables per depth; row d lists the variables of depth d in creation order. */
  type Table = seq<seq<StackVariable>>

  ghost predicate WellFormedRow(depth: nat, row: seq<StackVariable>) {
    && (forall i :: 0 <= i < |row| ==> row[i].depth == depth && row[i].symbolName == SymbolName(depth, i))
    && (forall i, j :: 0 <= i < j < |row| ==> row[i].targetType != row[j].targetType)
  }

  ghost predicate WellFormedTable(t: Table) {
    forall d :: 0 <= d < |t| ==> WellFormedRow(d, t[d])
  }

  /** vars[d] is one of the variables of depth d, for every d. */
  ghost predicate InTable(t: Table, vars: seq<StackVariable>) {
    && |vars| <= |t|
    && forall d :: 0 <= d < |vars| ==> vars[d] in t[d]
  }

  ghost predicate Extends(t: Table, u: Table) {
    && |t| <= |u|
    && forall d :: 0 <= d < |t| ==> t[d] <= u[d]
  }

  lemma InTableExtends(t: Table, u: Table, vars: seq<StackVariable>)
    requires InTable(t, vars) && Extends(t, u)
    ensures InTable(u, vars)
  {
    forall d | 0 <= d < |vars| ensures vars[d] in u[d] {
      var i :| 0 <= i < |t[d]| && t[d][i] == vars[d];
      assert u[d][i] == vars[d];
    }
  }

  /** Depth and type determine the variable, so equal types mean the same variables. */
  lemma TypesDetermineVariables(t: Table, a: seq<StackVariable>, b: seq<StackVariable>)
    requires WellFormedTable(t) && InTable(t, a) && InTable(t, b)
    requires Types(a) == Types(b)
    ensures a == b
  {
    assert |a| == |Types(a)| == |b|;
    forall d | 0 <= d < |a| ensures a[d] == b[d] {
      assert WellFormedRow(d, t[d]);
      assert Types(a)[d] == Types(b)[d];
    }
  }

  /** The variables of one depth and the one selected last. The source keeps these in an object that
      only the owning context refers to; here it is a value that the context replaces. */
  datatype StackInformationHolder = StackInformationHolder(
    stackPointer: nat, typedStackInformation: seq<StackVariable>, selectedStackInformation: int)
  {
    predicate HasCurrent() { 0 <= selectedStackInformation < |typedStackInformation| }

    function GetCurrent(): StackVariable
      requires HasCurrent()
    {
      typedStackInformation[selectedStackInformation]
    }

    /** Index of the first variable of a type, from `index` on; the length if there is none. */
    function FindIndex(targetType: Tag, index: nat): (r: nat)
      requires index <= |typedStackInformation|
      ensures index <= r <= |typedStackInformation|
      ensures r < |typedStackInformation| ==> typedStackInformation[r].targetType == targetType
      ensures forall i :: index <= i < r ==> typedStackInformation[i].targetType != targetType
      decreases |typedStackInformation| - index
    {
      if index == |typedStackInformation| || typedStackInformation[index].targetType == targetType then index
      else FindIndex(targetType, index + 1)
    }

    /** Selects the variable of a type, creating it when the depth has none. */
    function GetOrAdd(targetType: Tag): (h: StackInformationHolder)
      requires WellFormedRow(stackPointer, typedStackInformation)
      ensures WellFormedRow(h.stackPointer, h.typedStackInformation) && h.stackPointer == stackPointer
      ensures h.HasCurrent() && h.GetCurrent().targetType == targetType
      ensures typedStackInformation <= h.typedStackInformation
      ensures forall v :: v in typedStackInformation && v.targetType == targetType ==>
                h.GetCurrent() == v && h.typedStackInformation == typedStackInformation
    {
      var index := FindIndex(targetType, 0);
      if index < |typedStackInformation| then
        this.(selectedStackInformation := index)
      else
        var v := StackVariable(stackPointer, SymbolName(stackPointer, |typedStackInformation|), targetType);
        StackInformationHolder(stackPointer, typedStackInformation + [v], |typedStackInformation|)
    }
  }

  ghost function Rows(holders: seq<StackInformationHolder>): (t: Table)
    ensures |t| == |holders|
    ensures forall i :: 0 <= i < |t| ==> t[i] == holders[i].typedStackInformation
  {
    seq(|holders|, i requires 0 <= i < |holders| => holders[i].typedStackInformation)
  }

  /** The selected variables of the n lowest depths. */
  function Selected(holders: seq<StackInformationHolder>, n: nat): (vars: seq<StackVariable>)
    requires n <= |holders|
    requires forall i :: 0 <= i < n ==> holders[i].HasCurrent()
    ensures |vars| == n
    ensures forall i :: 0 <= i < n ==> vars[i] == holders[i].GetCurrent()
  {
    seq(n, i requires 0 <= i < n && holders[i].HasCurrent() => holders[i].GetCurrent())
  }

  ghost predicate ValidHolders(holders: seq<StackInformationHolder>) {
    forall i :: 0 <= i < |holders| ==>
      holders[i].stackPointer == i && WellFormedRow(i, holders[i].typedStackInformation)
  }

  datatype MoveResult<V> = AlreadyDecoded | EndOfMethodBody | Moved(code: Code<V>)

  lemma HandlerPath(h: HandlerEntry, s: StackSnapshot)
    requires s.offset == h.start && Types(s.stackInformations) == h.EntryTypes()
    ensures IsHandlerPath(h, s)
  {
    assert |Types(s.stackInformations)| == |s.stackInformations|;
    if h.Catch? { assert Types(s.stackInformations)[0] == s.stackInformations[0].targetType; }
  }

  /** A catch block starts with one variable of the caught type on the stack, a finally block with none. */
  predicate IsHandlerPath(h: HandlerEntry, s: StackSnapshot) {
    && s.offset == h.start
    && match h
       case Catch(_, t) => |s.stackInformations| == 1 && s.stackInformations[0].targetType == t
       case Finally(_) => s.stackInformations == []
  }

  class DecodeContext<V(==)> {
    const body: Method<V>

    var nextOffset: int
    var currentOffset: int
    var decodingPathNumber: nat
    var uniqueCodeBlockIndex: nat
    var stackSnapshotsAtOffset: map<int, StackSnapshot>
    var stackList: seq<StackInformationHolder>
    var stackPointer: int
    var labelNames: map<nat, string>
    var pathRemains: seq<StackSnapshot>

    ghost predicate ValidStack()
      reads `stackPointer, `stackList
    {
      && -1 <= stackPointer <= |stackList|
      && ValidHolders(stackList)
      && (forall i :: 0 <= i < stackPointer ==> stackList[i].HasCurrent())
    }

    ghost function Variables(): Table
      reads `stackList
    {
      Rows(stackList)
    }

    /** The variables that stand for the evaluation stack, bottom first. */
    function Current(): (vars: seq<StackVariable>)
      requires ValidStack() && stackPointer >= 0
      reads `stackPointer, `stackList
      ensures |vars| == stackPointer
      ensures InTable(Variables(), vars)
    {
      Selected(stackList, stackPointer)
    }

    ghost predicate ValidSnapshots(t: Table)
      reads `pathRemains, `stackSnapshotsAtOffset
    {
      && (forall s :: s in pathRemains ==> s.offset >= 0 && InTable(t, s.stackInformations))
      && (forall o :: o in stackSnapshotsAtOffset ==>
            o >= 0 && stackSnapshotsAtOffset[o].offset == o && InTable(t, stackSnapshotsAtOffset[o].stackInformations))
    }

    ghost predicate Valid()
      reads this
    {
      && ValidStack()
      && ValidSnapshots(Variables())
      && (forall o :: o in labelNames ==> labelNames[o] == LabelName(o))
    }

    lemma SnapshotsExtend(t: Table, u: Table)
      requires ValidSnapshots(t) && Extends(t, u)
      ensures ValidSnapshots(u)
    {
      forall s | s in pathRemains ensures InTable(u, s.stackInformations) {
        InTableExtends(t, u, s.stackInformations);
      }
      forall o | o in stackSnapshotsAtOffset ensures InTable(u, stackSnapshotsAtOffset[o].stackInformations) {
        InTableExtends(t, u, stackSnapshotsAtOffset[o].stackInformations);
      }
    }

    constructor (body: Method<V>)
      ensures this.body == body && Valid()
      ensures stackSnapshotsAtOffset == map[] && labelNames == map[]
      ensures |pathRemains| == 1 + |body.handlers| && pathRemains[0] == StackSnapshot(0, [])
      ensures forall i :: 0 <= i < |body.handlers| ==>
                && pathRemains[1 + i].offset == body.handlers[i].start
                && Types(pathRemains[1 + i].stackInformations) == body.handlers[i].EntryTypes()
                && IsHandlerPath(body.handlers[i], pathRemains[1 + i])
    {
      this.body := body;
      nextOffset := -1;
      currentOffset := -1;
      decodingPathNumber := 0;
      uniqueCodeBlockIndex := 0;
      stackSnapshotsAtOffset := map[];
      stackList := [];
      stackPointer := -1;
      labelNames := map[];
      pathRemains := [StackSnapshot(0, [])];
      new;
      if |body.handlers| >= 1 {
        stackList := [StackInformationHolder(0, [], -1)];
        EnqueueHandlerPaths();
      }
      forall i | 0 <= i < |body.handlers| ensures IsHandlerPath(body.handlers[i], pathRemains[1 + i]) {
        HandlerPath(body.handlers[i], pathRemains[1 + i]);
      }
    }

    /** Queues the entries of all handlers behind offset 0. */
    method EnqueueHandlerPaths()
      requires Valid() && |stackList| == 1 && stackPointer == -1 && pathRemains == [StackSnapshot(0, [])]
      modifies `stackList, `pathRemains
      ensures Valid()
      ensures |pathRemains| == 1 + |body.handlers| && pathRemains[0] == StackSnapshot(0, [])
      ensures forall i :: 0 <= i < |body.handlers| ==>
                && pathRemains[1 + i].offset == body.handlers[i].start
                && Types(pathRemains[1 + i].stackInformations) == body.handlers[i].EntryTypes()
    {
      hide Types, ValidHolders;
      var n := 0;
      while n < |body.handlers|
        invariant 0 <= n <= |body.handlers|
        invariant Valid() && |stackList| == 1
        invariant |pathRemains| == 1 + n && pathRemains[0] == StackSnapshot(0, [])
        invariant forall i :: 0 <= i < n ==>
                    && pathRemains[1 + i].offset == body.handlers[i].start
                    && Types(pathRemains[1 + i].stackInformations) == body.handlers[i].EntryTypes()
      {
        EnqueueHandlerPath(body.handlers[n]);
        n := n + 1;
      }
    }

    /** Queues the entry of one handler; a catch block is entered with its exception at depth 0. */
    method EnqueueHandlerPath(h: HandlerEntry)
      requires Valid() && |stackList| == 1 && stackPointer == -1
      modifies `stackList, `pathRemains
      ensures Valid() && |stackList| == 1
      ensures |pathRemains| == |old(pathRemains)| + 1 && old(pathRemains) <= pathRemains
      ensures pathRemains[|old(pathRemains)|].offset == h.start
      ensures Types(pathRemains[|old(pathRemains)|].stackInformations) == h.EntryTypes()
    {
      if h.Catch? {
        stackList := [stackList[0].GetOrAdd(h.catchType)];
        SnapshotsExtend(old(Variables()), Variables());
      }
      var entry := Selected(stackList, if h.Catch? then 1 else 0);
      assert Types(entry) == h.EntryTypes();
      pathRemains := pathRemains + [StackSnapshot(h.start, entry)];
    }

    method MoveNext() returns (r: MoveResult<V>)
      requires Valid() && stackPointer >= 0 && nextOffset >= 0
      modifies `nextOffset, `currentOffset, `stackSnapshotsAtOffset
      ensures Valid()
      ensures old(nextOffset) in old(stackSnapshotsAtOffset) ==>
                && r == AlreadyDecoded && nextOffset == old(nextOffset)
                && stackSnapshotsAtOffset == old(stackSnapshotsAtOffset)
      ensures old(nextOffset) !in old(stackSnapshotsAtOffset) ==>
                && stackSnapshotsAtOffset ==
                   old(stackSnapshotsAtOffset)[old(nextOffset) := StackSnapshot(old(nextOffset), Current())]
                && currentOffset == old(nextOffset)
                && if currentOffset in body.code
                   then r == Moved(body.code[currentOffset]) && nextOffset == currentOffset + body.code[currentOffset].size
                   else r == EndOfMethodBody
    {
      if nextOffset in stackSnapshotsAtOffset {
        return AlreadyDecoded;
      }
      stackSnapshotsAtOffset := stackSnapshotsAtOffset[nextOffset := StackSnapshot(nextOffset, Current())];
      currentOffset := nextOffset;
      if nextOffset !in body.code {
        return EndOfMethodBody;
      }
      var code := body.code[nextOffset];
      nextOffset := nextOffset + code.size;
      return Moved(code);
    }

    method PushStack(targetType: Tag) returns (v: StackVariable)
      requires Valid() && stackPointer >= 0
      modifies `stackList, `stackPointer
      ensures Valid() && stackPointer >= 0
      ensures Current() == old(Current()) + [v] && v.targetType == targetType
      ensures Extends(old(Variables()), Variables())
    {
      if stackPointer >= |stackList| {
        stackList := stackList + [StackInformationHolder(stackPointer, [], -1)];
      }
      var holder := stackList[stackPointer].GetOrAdd(targetType);
      stackList := stackList[stackPointer := holder];
      stackPointer := stackPointer + 1;
      v := holder.GetCurrent();
      SnapshotsExtend(old(Variables()), Variables());
    }

    method PopStack() returns (v: Option<StackVariable>)
      requires Valid() && stackPointer >= 0
      modifies `stackPointer
      ensures Valid() && stackPointer >= 0
      ensures v.None? <==> |old(Current())| == 0
      ensures v.None? ==> Current() == old(Current())
      ensures v.Some? ==> old(Current()) == Current() + [v.value]
    {
      if stackPointer <= 0 {
        return None;
      }
      stackPointer := stackPointer - 1;
      v := Some(stackList[stackPointer].GetCurrent());
    }

    method EnqueueNewPath(targetOffset: nat) returns (labelName: string)
      requires Valid() && stackPointer >= 0
      modifies `pathRemains, `labelNames
      ensures Valid()
      ensures pathRemains == old(pathRemains) + [StackSnapshot(targetOffset, Current())]
      ensures labelNames == old(labelNames)[targetOffset := LabelName(targetOffset)]
      ensures labelName == LabelName(targetOffset)
    {
      pathRemains := pathRemains + [StackSnapshot(targetOffset, Current())];
      if targetOffset in labelNames {
        return labelNames[targetOffset];
      }
      labelName := LabelName(targetOffset);
      labelNames := labelNames[targetOffset := labelName];
    }

    /** The offset has been decoded with the very same stack. */
    predicate IsRepeated(s: StackSnapshot)
      reads this
    {
      s.offset in stackSnapshotsAtOffset && stackSnapshotsAtOffset[s.offset].stackInformations == s.stackInformations
    }

    /** Takes the first queued path that is not a repetition of an already decoded arrival. */
    method TryDequeueNextPath() returns (found: bool)
      requires Valid()
      modifies `nextOffset, `pathRemains, `stackPointer, `stackList, `decodingPathNumber, `uniqueCodeBlockIndex
      ensures Valid() && Variables() == old(Variables())
      ensures |pathRemains| <= |old(pathRemains)| && pathRemains == old(pathRemains)[|old(pathRemains)| - |pathRemains|..]
      ensures
        var taken := |old(pathRemains)| - |pathRemains|;
        if found then
          && taken > 0 && stackPointer >= 0 && nextOffset >= 0
          && StackSnapshot(nextOffset, Current()) == old(pathRemains)[taken - 1] && !IsRepeated(old(pathRemains)[taken - 1])
          && forall i :: 0 <= i < taken - 1 ==> IsRepeated(old(pathRemains)[i])
        else
          pathRemains == [] && nextOffset == -1 && forall s :: s in old(pathRemains) ==> IsRepeated(s)
    {
      while |pathRemains| >= 1
        invariant Valid() && unchanged(`stackList) && unchanged(`stackPointer)
        invariant |pathRemains| <= |old(pathRemains)| && pathRemains == old(pathRemains)[|old(pathRemains)| - |pathRemains|..]
        invariant forall i :: 0 <= i < |old(pathRemains)| - |pathRemains| ==> IsRepeated(old(pathRemains)[i])
        decreases |pathRemains|
      {
        var snapshot := pathRemains[0];
        pathRemains := pathRemains[1..];
        if snapshot.offset in stackSnapshotsAtOffset {
          if stackSnapshotsAtOffset[snapshot.offset].stackInformations == snapshot.stackInformations {
            continue;
          }
          uniqueCodeBlockIndex := uniqueCodeBlockIndex + 1;
        }
        decodingPathNumber := decodingPathNumber + 1;
        nextOffset := snapshot.offset;
        Restore(snapshot);
        return true;
      }
      nextOffset := -1;
      return false;
    }

    /** Selects the variables of a queued snapshot again. */
    method Restore(snapshot: StackSnapshot)
      requires Valid() && InTable(Variables(), snapshot.stackInformations)
      modifies `stackPointer, `stackList
      ensures Valid() && Variables() == old(Variables())
      ensures stackPointer >= 0 && Current() == snapshot.stackInformations
    {
      var index := 0;
      var wanted := snapshot.stackInformations;
      while index < |wanted|
        invariant 0 <= index <= |wanted| <= |stackList|
        invariant ValidHolders(stackList) && unchanged(`stackPointer) && Rows(stackList) == old(Rows(stackList))
        invariant forall i :: 0 <= i < index ==> stackList[i].HasCurrent() && stackList[i].GetCurrent() == wanted[i]
      {
        assert wanted[index] in Rows(stackList)[index];
        stackList := stackList[index := stackList[index].GetOrAdd(wanted[index].targetType)];
        assert Rows(stackList) == old(Rows(stackList));
        index := index + 1;
      }
      stackPointer := |wanted|;
    }
  }
}
