/** Object headers in the C heap: characteristic bits, runtime type descriptors and the references a
    header leads to (IL2C.Runtime/src/il2c_private.h, IL2C.Runtime/src/Core/il2c_gc.c). */
module RefHeaders {
  import opened Wrappers

  // Characteristic bits: 0x10000000 finalizer called, 0x20000000 mark index, 0x40000000 initialized, 0x80000000 const.

  predicate IsConst(c: bv32) { c & 0x80000000 != 0 }
  predicate IsInitialized(c: bv32) { c & 0x40000000 != 0 }
  predicate IsFinalizerCalled(c: bv32) { c & 0x10000000 != 0 }

  /** The mark bit agrees with the current meaning of "marked". */
  predicate IsMarked(c: bv32, index: bv32) { c & 0x20000000 == index }

  /** The two values of g_CollectionMarkIndex__. */
  type MarkIndex = i: bv32 | i == 0 || i == 0x20000000 witness 0

  function FlipIndex(i: MarkIndex): (r: MarkIndex)
    ensures r != i
    ensures forall c: bv32 :: IsMarked(c, i) <==> !IsMarked(c, r)
  {
    i ^ 0x20000000
  }

  lemma NotConstNotMarked(c: bv32, i: bv32)
    requires i == 0 || i == 0x20000000
    ensures ((c & (0x80000000 | 0x20000000)) ^ 0x20000000 == i) <==> (c & 0x80000000 == 0 && c & 0x20000000 != i)
  {
  }

  lemma InitializedNotMarked(c: bv32, i: bv32)
    requires i == 0 || i == 0x20000000
    ensures ((c & (0x40000000 | 0x20000000)) ^ (0x40000000 | 0x20000000) == i) <==>
            (c & 0x40000000 != 0 && c & 0x20000000 != i)
  {
  }

  /** TRY_GET_HEADER: one masked comparison tests "not const and not marked". */
  predicate TryGetHeader(c: bv32, index: bv32): (r: bool)
    requires index == 0 || index == 0x20000000
    ensures r <==> !IsConst(c) && !IsMarked(c, index)
  {
    NotConstNotMarked(c, index);
    ((c & (0x80000000 | 0x20000000)) ^ 0x20000000) == index
  }

  /** The sweep's masked comparison tests "initialized and not marked". */
  predicate IsGarbage(c: bv32, index: bv32): (r: bool)
    requires index == 0 || index == 0x20000000
    ensures r <==> IsInitialized(c) && !IsMarked(c, index)
  {
    InitializedNotMarked(c, index);
    ((c & (0x40000000 | 0x20000000)) ^ (0x40000000 | 0x20000000)) == index
  }

  /** Atomic XOR of the mark bit. */
  function FlipMark(c: bv32): (r: bv32)
    ensures forall i: MarkIndex :: IsMarked(r, i) <==> !IsMarked(c, i)
    ensures IsConst(r) == IsConst(c) && IsInitialized(r) == IsInitialized(c) && IsFinalizerCalled(r) == IsFinalizerCalled(c)
  {
    c ^ 0x20000000
  }

  /** Atomic OR of the finalizer-called bit. */
  function SetFinalizerCalled(c: bv32): (r: bv32)
    ensures IsFinalizerCalled(r)
    ensures forall i: MarkIndex :: IsMarked(r, i) <==> IsMarked(c, i)
    ensures IsConst(r) == IsConst(c) && IsInitialized(r) == IsInitialized(c)
  {
    c | 0x10000000
  }

  /** Atomic AND that clears the finalizer-called bit. */
  function ClearFinalizerCalled(c: bv32): (r: bv32)
    ensures !IsFinalizerCalled(r)
    ensures forall i: MarkIndex :: IsMarked(r, i) <==> IsMarked(c, i)
    ensures IsConst(r) == IsConst(c) && IsInitialized(r) == IsInitialized(c)
  {
    c & !0x10000000
  }

  /** A new header: the current mark first, then the initialized bit. */
  function NewCharacteristic(index: MarkIndex): (r: bv32)
    ensures IsInitialized(r) && IsMarked(r, index) && !IsConst(r) && !IsFinalizerCalled(r)
  {
    index | 0x40000000
  }

  // ---------------------------------------------------------------------------------------------

  /** Addresses; 0 is NULL. */
  type Addr = nat

  /** The mark targets are those of the fields that the type declares itself. */
  datatype RuntimeType =
    RuntimeType(name: string, isValue: bool, hasFinalizer: bool, markTargets: seq<MarkTarget>, baseType: Option<RuntimeType>)

  /** A field the collector follows: an object reference, or a value type that holds some. */
  datatype MarkTarget = ReferenceField(offset: nat) | ValueField(valueType: RuntimeType, offset: nat)

  /** Raw memory of an object or value, by byte offset; absent offsets hold zero. */
  type Slots = map<nat, Addr>

  const SIZE_OF_VALUE_TYPE: nat := 8

  datatype ValueDescriptor = ValueDescriptor(valueType: RuntimeType, slots: Slots)

  /** IL2C_GC_TRACKING_INFORMATION: an execution frame or a block of static fields. */
  datatype Tracking = Tracking(references: seq<Addr>, values: seq<ValueDescriptor>)

  /** What follows the header. Types other than Plain have their own mark handler. */
  datatype Body =
    | Plain(slots: Slots)
    | Delegate(targets: seq<Addr>)
    | ReferenceArray(items: seq<Addr>)
    | ValueArray(elementType: RuntimeType, elements: seq<Slots>)
    | Thread(start: Addr, parameter: Addr, temporaryReferenceAnchor: Addr, frames: seq<Tracking>)

  datatype Header = Header(pNext: Addr, runtimeType: RuntimeType, characteristic: bv32, body: Body)

  type Memory = map<Addr, Header>

  function Load(slots: Slots, offset: nat): Addr {
    if offset in slots then slots[offset] else 0
  }

  /** References found by walking the mark targets of a type from an index on, value types included. */
  function References(slots: Slots, t: RuntimeType, index: nat, offset: nat): seq<Addr>
    decreases t, |t.markTargets| - index
  {
    if index >= |t.markTargets| then []
    else
      (match t.markTargets[index]
       case ReferenceField(o) => [Load(slots, o + offset)]
       case ValueField(u, o) => References(slots, u, 0, o + offset))
      + References(slots, t, index + 1, offset)
  }

  function ElementReferences(t: RuntimeType, elements: seq<Slots>): seq<Addr> {
    if elements == [] then []
    else References(elements[0], t, 0, 0) + ElementReferences(t, elements[1..])
  }

  function DescriptorReferences(values: seq<ValueDescriptor>): seq<Addr> {
    if values == [] then []
    else References(values[0].slots, values[0].valueType, 0, 0) + DescriptorReferences(values[1..])
  }

  function TrackingReferences(frames: seq<Tracking>): seq<Addr> {
    if frames == [] then []
    else frames[0].references + DescriptorReferences(frames[0].values) + TrackingReferences(frames[1..])
  }

  function ThreadReferences(start: Addr, parameter: Addr, anchor: Addr, frames: seq<Tracking>): seq<Addr> {
    (if start != 0 then [start, parameter] else []) + [anchor] + TrackingReferences(frames)
  }

  /** Everything the collector follows from an object. */
  function Edges(h: Header): seq<Addr> {
    match h.body
    case Plain(slots) =>
      References(slots, h.runtimeType, 0, if h.runtimeType.isValue then SIZE_OF_VALUE_TYPE else 0)
    case Delegate(targets) => targets
    case ReferenceArray(items) => items
    case ValueArray(t, elements) => ElementReferences(t, elements)
    case Thread(start, parameter, anchor, frames) =>
      ThreadReferences(start, parameter, anchor, frames)
  }

  // ---------------------------------------------------------------------------------------------
  // Reachability

  /** A chain of references, followed only out of objects that are not const. */
  ghost predicate Walk(m: Memory, p: seq<Addr>) {
    && |p| >= 1
    && (forall i :: 0 <= i < |p| ==> p[i] in m)
    && (forall i :: 0 <= i < |p| - 1 ==> Follows(m, p[i], p[i + 1]))
  }

  ghost predicate Follows(m: Memory, a: Addr, b: Addr) {
    a in m && !IsConst(m[a].characteristic) && b != 0 && b in Edges(m[a])
  }

  ghost predicate Reaches(m: Memory, a: Addr, b: Addr) {
    exists p :: Walk(m, p) && p[0] == a && p[|p| - 1] == b
  }

  ghost predicate Reachable(m: Memory, roots: seq<Addr>, b: Addr) {
    exists r :: r in roots && r != 0 && Reaches(m, r, b)
  }

  lemma ReachesSelf(m: Memory, a: Addr)
    requires a in m
    ensures Reaches(m, a, a)
  {
    assert Walk(m, [a]) && [a][0] == a && [a][|[a]| - 1] == a;
  }

  lemma FollowsIn(m: Memory, a: Addr, b: Addr)
    requires Follows(m, a, b)
    ensures a in m
  {
  }

  lemma ReachesStep(m: Memory, a: Addr, b: Addr, c: Addr)
    requires Follows(m, a, b) && Reaches(m, b, c)
    ensures Reaches(m, a, c)
  {
    hide Follows;
    var p :| Walk(m, p) && p[0] == b && p[|p| - 1] == c;
    var q := [a] + p;
    assert a in m by { FollowsIn(m, a, b); }
    forall i | 0 <= i < |q| - 1 ensures Follows(m, q[i], q[i + 1]) {
      if i > 0 { assert Follows(m, p[i - 1], p[(i - 1) + 1]); }
    }
    assert Walk(m, q) && q[0] == a && q[|q| - 1] == c;
  }

  lemma ReachesEdge(m: Memory, a: Addr, b: Addr, c: Addr)
    requires Reaches(m, a, b) && Follows(m, b, c) && c in m
    ensures Reaches(m, a, c)
  {
    var p :| Walk(m, p) && p[0] == a && p[|p| - 1] == b;
    var q := p + [c];
    assert forall i :: 0 <= i < |q| - 1 ==> Follows(m, q[i], q[i + 1]);
    assert Walk(m, q) && q[0] == a && q[|q| - 1] == c;
  }

  /** Reachability looks at types, bodies and const bits only. */
  ghost predicate SameGraph(m: Memory, n: Memory) {
    && m.Keys == n.Keys
    && forall a :: a in m ==>
         && Edges(m[a]) == Edges(n[a])
         && IsConst(m[a].characteristic) == IsConst(n[a].characteristic)
  }

  lemma ReachesSameGraph(m: Memory, n: Memory, a: Addr, b: Addr)
    requires SameGraph(m, n)
    ensures Reaches(m, a, b) <==> Reaches(n, a, b)
  {
    forall p ensures Walk(m, p) <==> Walk(n, p) {
      assert forall i :: 0 <= i < |p| - 1 && p[i] in m ==> (Follows(m, p[i], p[i + 1]) <==> Follows(n, p[i], p[i + 1]));
    }
  }

  /** A set that holds the start and is closed under references holds everything reached. */
  lemma ReachesInClosed(m: Memory, s: set<Addr>, a: Addr, b: Addr)
    requires a in s && (forall x, y :: x in s && Follows(m, x, y) ==> y in s)
    requires Reaches(m, a, b)
    ensures b in s
  {
    var p :| Walk(m, p) && p[0] == a && p[|p| - 1] == b;
    WalkInClosed(m, s, p, |p| - 1);
  }

  lemma {:induction false} WalkInClosed(m: Memory, s: set<Addr>, p: seq<Addr>, k: nat)
    requires Walk(m, p) && p[0] in s && (forall x, y :: x in s && Follows(m, x, y) ==> y in s)
    requires k < |p|
    ensures p[k] in s
  {
    if k > 0 {
      WalkInClosed(m, s, p, k - 1);
      assert Follows(m, p[k - 1], p[(k - 1) + 1]);
    }
  }
}
