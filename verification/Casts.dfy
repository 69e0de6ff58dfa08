/** Casts over adjusted references, and boxes (IL2C.Runtime/src/Core/il2c.c, IL2C.Runtime/src/Core/il2c_allocator.c,
    IL2C.Runtime/include/il2c.h). */
module Casts {
  import opened Arithmetic
  import opened Wrappers
  import opened ObjectLayout
  import opened ObjectMemory

  datatype Error = InvalidCast | NullReference

  /** The first word of the vtable at each address: its adjustor offset. */
  type Vtables = map<nat, nat>

  /** The linker has put the vtables of the type at addresses that fit a word. */
  ghost predicate IsLinked(v: Vtables, d: Descriptor) {
    && d.vptr0 in v && v[d.vptr0] == 0 && d.vptr0 < Power256(WORD)
    && InterfacesLinked(v, d)
  }

  ghost predicate InterfacesLinked(v: Vtables, d: Descriptor)
    decreases d
  {
    && (forall e :: e in d.interfaces ==> e.vptr0 in v && v[e.vptr0] == e.offset && e.vptr0 < Power256(WORD))
    && (d.baseType.Some? ==> InterfacesLinked(v, d.baseType.value))
  }

  /** A vptr is stored at this offset, and its vtable leads back to the object. */
  predicate HasVptr(m: Bytes, v: Vtables, a: nat, offset: nat) {
    IsReadable(m, a + offset, WORD) && ReadWord(m, a + offset) in v && v[ReadWord(m, a + offset)] == offset
  }

  ghost predicate HasVptrs(m: Bytes, v: Vtables, a: nat, d: Descriptor) {
    forall e :: e in d.interfaces ==> HasVptr(m, v, a, e.offset)
  }

  ghost predicate IsObject(m: Bytes, v: Vtables, a: nat, d: Descriptor) {
    HasVptr(m, v, a, 0) && HasVptrs(m, v, a, d)
  }

  /** The type occurs in the base chain, or one of the chain's types implements it. */
  ghost predicate IsInstance(current: Descriptor, target: Descriptor)
    decreases current
  {
    || (if target.isInterface then Implements(current, target) else current == target)
    || (current.baseType.Some? && IsInstance(current.baseType.value, target))
  }

  ghost predicate Implements(d: Descriptor, target: Descriptor) {
    exists i :: 0 <= i < |d.interfaces| && d.interfaces[i].name == target.name
  }

  lemma {:induction false} BaseHasVptrs(m: Bytes, v: Vtables, a: nat, d: Descriptor)
    requires HasVptrs(m, v, a, d) && KeepsBase(d) && InterfacesLinked(v, d) && d.baseType.Some?
    ensures var b := d.baseType.value; HasVptrs(m, v, a, b) && KeepsBase(b) && InterfacesLinked(v, b)
  {
    var b := d.baseType.value;
    forall e | e in b.interfaces ensures HasVptr(m, v, a, e.offset) {
      assert HasEntry(d, e.name, e.offset);
      var i :| 0 <= i < |d.interfaces| && d.interfaces[i].name == e.name && d.interfaces[i].offset == e.offset;
      assert d.interfaces[i] in d.interfaces;
    }
  }

  ghost predicate IsVptrPlace(p: nat, d: Descriptor, k: nat) {
    IsWithin(k, p, WORD) || exists i :: 0 <= i < |d.interfaces| && IsWithin(k, p + d.interfaces[i].offset, WORD)
  }

  /** The allocator writes vptr0 and one vptr for every implemented interface, and nothing else. */
  method SetupVptrs(before: Bytes, v: Vtables, p: nat, d: Descriptor) returns (m: Bytes)
    requires IsLaidOut(d) && IsLinked(v, d) && IsReadable(before, p, AllocatedSize(d))
    ensures m.Keys == before.Keys && IsObject(m, v, p, d) && ReadWord(m, p) == d.vptr0
    ensures forall k :: k in m && !IsVptrPlace(p, d, k) ==> m[k] == before[k]
  {
    hide KeepsBase, Encode, ReadWord, HasVptr, Write, AllocatedSize, InterfacesLinked;
    Vptr0Written(before, v, p, d);
    m := Write(before, p, Encode(d.vptr0, WORD));
    var index := 0;
    while index < |d.interfaces|
      invariant 0 <= index <= |d.interfaces|
      invariant m.Keys == before.Keys
      invariant HasVptr(m, v, p, 0) && IsReadable(m, p, WORD) && ReadWord(m, p) == d.vptr0
      invariant forall i :: 0 <= i < index ==> HasVptr(m, v, p, d.interfaces[i].offset)
      invariant forall k :: k in m && !IsVptrPlace(p, d, k) ==> m[k] == before[k]
    {
      var implemented := d.interfaces[index];
      assert implemented in d.interfaces;
      InterfaceLinked(v, d, implemented);
      var n := Write(m, p + v[implemented.vptr0], Encode(implemented.vptr0, WORD));
      WriteVptr(m, v, p, implemented);
      VptrStays(m, v, p, implemented, 0);
      forall i | 0 <= i < index ensures HasVptr(n, v, p, d.interfaces[i].offset) {
        VptrStays(m, v, p, implemented, d.interfaces[i].offset);
      }
      forall k | k in n && !IsVptrPlace(p, d, k) ensures n[k] == before[k] {
        assert !IsWithin(k, p + d.interfaces[index].offset, WORD);
      }
      m, index := n, index + 1;
    }
  }

  lemma InterfaceLinked(v: Vtables, d: Descriptor, e: Implemented)
    requires IsLinked(v, d) && e in d.interfaces
    ensures e.vptr0 in v && v[e.vptr0] == e.offset && e.vptr0 < Power256(WORD)
  {
  }

  lemma Vptr0Written(m: Bytes, v: Vtables, p: nat, d: Descriptor)
    requires IsLinked(v, d) && IsReadable(m, p, AllocatedSize(d)) && AllocatedSize(d) >= WORD
    ensures
      var n := Write(m, p, Encode(d.vptr0, WORD));
      && n.Keys == m.Keys && HasVptr(n, v, p, 0) && IsReadable(n, p, WORD) && ReadWord(n, p) == d.vptr0
      && forall k :: k in m && !IsWithin(k, p, WORD) ==> n[k] == m[k]
  {
    hide Encode, Decode, InterfacesLinked;
    WordRoundTrip(m, p, d.vptr0);
    assert p + 0 == p;
    assert Write(m, p, Encode(d.vptr0, WORD)).Keys == m.Keys;
  }

  /** Writing one vptr behind vptr0 leaves vptr0 and vptrs elsewhere as they are. */
  lemma WriteVptr(m: Bytes, v: Vtables, p: nat, e: Implemented)
    requires e.vptr0 in v && v[e.vptr0] == e.offset && e.vptr0 < Power256(WORD) && e.offset >= WORD
    requires IsReadable(m, p + e.offset, WORD) && IsReadable(m, p, WORD)
    ensures
      var n := Write(m, p + e.offset, Encode(e.vptr0, WORD));
      && HasVptr(n, v, p, e.offset) && n.Keys == m.Keys && ReadWord(n, p) == ReadWord(m, p)
      && forall k :: k in m && !IsWithin(k, p + e.offset, WORD) ==> n[k] == m[k]
  {
    hide Encode, Decode;
    var n := Write(m, p + e.offset, Encode(e.vptr0, WORD));
    WordRoundTrip(m, p + e.offset, e.vptr0);
    ReadFrame(m, n, p, WORD);
    assert n.Keys == m.Keys;
  }

  lemma VptrStays(m: Bytes, v: Vtables, p: nat, e: Implemented, offset: nat)
    requires HasVptr(m, v, p, offset) && AreApart(offset, WORD, e.offset, WORD)
    ensures HasVptr(Write(m, p + e.offset, Encode(e.vptr0, WORD)), v, p, offset)
  {
    hide Encode, Decode;
    ReadFrame(m, Write(m, p + e.offset, Encode(e.vptr0, WORD)), p + offset, WORD);
  }

  /** An integer type with its runtime type. */
  datatype IntegerType = IntegerType(descriptor: Descriptor, isUnsigned: bool)

  predicate IsIntegerType(t: IntegerType) { t.descriptor.isValue && 1 <= t.descriptor.bodySize <= 8 }

  /** The number that a bit pattern stands for. */
  function Typed(bits: nat, t: IntegerType): int {
    if t.isUnsigned || bits < Power256(t.descriptor.bodySize) / 2 then bits else bits - Power256(t.descriptor.bodySize)
  }

  predicate IsValueOf(x: int, t: IntegerType) {
    var m := Power256(t.descriptor.bodySize);
    if t.isUnsigned then 0 <= x < m else -(m / 2) <= x < m / 2
  }

  predicate IsSupported(valueSize: nat, stackSize: nat) {
    || (valueSize == 1 && stackSize in {2, 4})
    || (valueSize == 2 && stackSize in {1, 4})
    || (valueSize == 4 && stackSize in {1, 2, 8})
  }

  /** A C cast from one integer type to another, on bit patterns. */
  function Convert(bits: nat, valueType: IntegerType, stackType: IntegerType): nat {
    Typed(bits, stackType) % Power256(valueType.descriptor.bodySize)
  }

  lemma ConvertMeaning(bits: nat, valueType: IntegerType, stackType: IntegerType)
    requires IsIntegerType(valueType)
    ensures
      var v, m := Convert(bits, valueType, stackType), Power256(valueType.descriptor.bodySize);
      v < m && IsValueOf(Typed(v, valueType), valueType) && (Typed(v, valueType) - Typed(bits, stackType)) % m == 0
  {
    hide Power256;
    var m := Power256(valueType.descriptor.bodySize);
    EvenPower(valueType.descriptor.bodySize);
    CastMeaning(Typed(bits, stackType), m);
  }

  lemma {:induction false} EvenPower(n: nat)
    requires n > 0
    ensures Power256(n) % 2 == 0
  {
    assert Power256(n) == 2 * (128 * Power256(n - 1));
  }

  lemma CastMeaning(x: int, m: nat)
    requires m > 0
    ensures 0 <= x % m < m && (x % m - x) % m == 0 && (x % m - m - x) % m == 0
  {
    var q := x / m;
    assert x == q * m + x % m;
    MultipleIsZero(-q, m);
    MultipleIsZero(-q - 1, m);
    assert x % m - x == (-q) * m && x % m - m - x == (-q - 1) * m;
  }

  /** A value of the destination type is determined by its residue, so a value that fits comes out unchanged. */
  lemma FittingValueSurvives(x: int, y: int, t: IntegerType)
    requires IsIntegerType(t) && IsValueOf(x, t) && IsValueOf(y, t) && (x - y) % Power256(t.descriptor.bodySize) == 0
    ensures x == y
  {
    hide Power256;
    var m := Power256(t.descriptor.bodySize);
    assert -(m as int) < x - y < m;
    SmallMultiple(x - y, m);
  }

  lemma SmallMultiple(d: int, m: nat)
    requires m > 0 && d % m == 0 && -(m as int) < d < m
    ensures d == 0
  {
    assert d == (d / m) * m;
    Multiples(d / m, m);
  }

  /** The heap as casts and boxes see it. */
  class Memory {
    const vtables: Vtables
    var bytes: Bytes
    var headers: map<nat, Descriptor>

    constructor (vtables: Vtables)
      ensures this.vtables == vtables && bytes == map[] && headers == map[]
    {
      this.vtables, bytes, headers := vtables, map[], map[];
    }

    /** il2c_adjusted_reference */
    function Adjusted(p: nat): int
      requires IsReadable(bytes, p, WORD) && ReadWord(bytes, p) in vtables
      reads this
    {
      p - vtables[ReadWord(bytes, p)]
    }

    /** An object with its header and all its vptrs. */
    ghost predicate HoldsObject(a: int)
      reads this
    {
      && a > 0 && a in headers && IsLaidOut(headers[a]) && IsLinked(vtables, headers[a])
      && IsObject(bytes, vtables, a, headers[a])
    }

    /** A reference to an object, plain or to one of its interface vptrs. */
    ghost predicate IsReference(p: nat)
      reads this
    {
      IsReadable(bytes, p, WORD) && ReadWord(bytes, p) in vtables && HoldsObject(Adjusted(p))
    }

    /** il2c_isinst__: succeeds exactly for instances, and the result adjusts to the same object. */
    method Isinst(p: nat, target: Descriptor) returns (r: Option<nat>)
      requires IsReference(p)
      ensures r.Some? <==> IsInstance(headers[Adjusted(p)], target)
      ensures r.Some? ==> IsReference(r.value) && Adjusted(r.value) == Adjusted(p)
      ensures r.Some? && !target.isInterface ==> r.value == p
    {
      var adjusted := Adjusted(p);
      var start := headers[adjusted];
      var current := Some(start);
      if target.isInterface {
        while current.Some?
          invariant current.Some? ==> HasVptrs(bytes, vtables, adjusted, current.value) && KeepsBase(current.value)
          invariant current.Some? ==> InterfacesLinked(vtables, current.value)
          invariant IsInstance(start, target) <==> current.Some? && IsInstance(current.value, target)
          decreases current
        {
          var interfaces := current.value.interfaces;
          var index := 0;
          while index < |interfaces|
            invariant 0 <= index <= |interfaces|
            invariant forall i :: 0 <= i < index ==> interfaces[i].name != target.name
          {
            var implemented := interfaces[index];
            assert implemented in interfaces;
            if implemented.name == target.name {
              assert HasVptr(bytes, vtables, adjusted, implemented.offset);
              return Some(adjusted + vtables[implemented.vptr0]);
            }
            index := index + 1;
          }
          if current.value.baseType.Some? { BaseHasVptrs(bytes, vtables, adjusted, current.value); }
          current := current.value.baseType;
        }
      } else {
        while current.Some?
          invariant IsInstance(start, target) <==> current.Some? && IsInstance(current.value, target)
          decreases current
        {
          if current.value == target {
            return Some(p);
          }
          current := current.value.baseType;
        }
      }
      return None;
    }

    /** il2c_castclass__ */
    method CastClass(p: nat, target: Descriptor) returns (r: Result<nat, Error>)
      requires IsReference(p)
      ensures r.Success? <==> IsInstance(headers[Adjusted(p)], target)
      ensures r.Success? ==> IsReference(r.value) && Adjusted(r.value) == Adjusted(p)
    {
      var q := Isinst(p, target);
      if q.None? { return Failure(InvalidCast); }
      return Success(q.value);
    }

    // ---------------------------------------------------------------------------------------------
    // Allocation

    /** il2c_get_uninitialized_object_internal__: cleared memory with every vptr of the type in place. */
    method Allocate(d: Descriptor, bodySize: nat) returns (p: nat)
      requires IsLaidOut(d) && IsLinked(vtables, d) && bodySize == AllocatedSize(d)
      modifies this
      ensures p !in old(headers) && headers == old(headers)[p := d] && HoldsObject(p)
      ensures forall k :: p <= k < p + bodySize ==> k !in old(bytes)
      ensures bytes.Keys == old(bytes).Keys + Range(p, bodySize)
      ensures forall k :: k in old(bytes) ==> bytes[k] == old(bytes)[k]
      ensures forall k :: p <= k < p + bodySize && !IsVptrPlace(p, d, k) ==> bytes[k] == 0
      ensures ReadWord(bytes, p) == d.vptr0
    {
      hide IsLinked, Encode, Decode, KeepsBase, Read, IsVptrPlace;
      ghost var used := Above(bytes.Keys + headers.Keys);
      assert forall k :: used <= k < used + bodySize ==> k !in bytes;
      p :| p > 0 && p !in headers && forall k :: p <= k < p + bodySize ==> k !in bytes;
      var cleared := Write(bytes, p, seq(bodySize, _ => 0));
      headers := headers[p := d];
      bytes := SetupVptrs(cleared, vtables, p, d);
      ClearedBytes(cleared, p, bodySize);
      PlacesInside(p, d);
    }

    // ---------------------------------------------------------------------------------------------
    // Boxes

    /** A box of this value type: a proper object whose data are these bytes. */
    ghost predicate IsBox(p: nat, d: Descriptor, data: seq<Byte>)
      reads this
    {
      && HoldsObject(p) && headers[p] == d && d.isValue && |data| == d.bodySize
      && IsReadable(bytes, p + WORD, |data|) && Read(bytes, p + WORD, |data|) == data
    }

    /** The copy behind System_ValueType leaves all vptrs alone. */
    method CopyIn(p: nat, d: Descriptor, data: seq<Byte>)
      requires HoldsObject(p) && headers[p] == d && d.isValue && |data| == d.bodySize
      requires IsReadable(bytes, p, AllocatedSize(d))
      modifies this`bytes
      ensures IsBox(p, d, data)
      ensures bytes.Keys == old(bytes).Keys
      ensures forall k :: k in bytes && !(p <= k < p + AllocatedSize(d)) ==> bytes[k] == old(bytes)[k]
    {
      ghost var before := bytes;
      bytes := Write(bytes, p + WORD, data);
      ReadFrame(before, bytes, p, WORD);
      forall e | e in d.interfaces ensures HasVptr(bytes, vtables, p, e.offset) {
        ReadFrame(before, bytes, p + e.offset, WORD);
      }
      assert bytes.Keys == before.Keys;
    }

    /** il2c_box__ */
    method Box(pValue: nat, d: Descriptor) returns (p: nat)
      requires d.isValue && IsLaidOut(d) && IsLinked(vtables, d) && IsReadable(bytes, pValue, d.bodySize)
      modifies this
      ensures p !in old(headers) && headers == old(headers)[p := d]
      ensures IsBox(p, d, Read(old(bytes), pValue, d.bodySize))
      ensures forall k :: k in old(bytes) ==> k in bytes && bytes[k] == old(bytes)[k]
    {
      p := Allocate(d, WORD + d.bodySize + |d.interfaces| * WORD);
      ReadFrame(old(bytes), bytes, pValue, d.bodySize);
      CopyIn(p, d, Read(bytes, pValue, d.bodySize));
    }

    /** il2c_box2__: nested switches over both sizes. */
    method Box2(pValue: nat, valueType: IntegerType, stackType: IntegerType) returns (r: Result<nat, Error>)
      requires IsIntegerType(valueType) && IsIntegerType(stackType)
      requires IsLaidOut(valueType.descriptor) && IsLinked(vtables, valueType.descriptor)
      requires IsReadable(bytes, pValue, stackType.descriptor.bodySize)
      modifies this
      ensures r.Success? <==> IsSupported(valueType.descriptor.bodySize, stackType.descriptor.bodySize)
      ensures r.Failure? ==> r.error == InvalidCast && bytes == old(bytes) && headers == old(headers)
      ensures r.Success? ==>
                && r.value !in old(headers) && headers == old(headers)[r.value := valueType.descriptor]
                && IsBox(r.value, valueType.descriptor, BoxedData(Read(old(bytes), pValue, stackType.descriptor.bodySize), valueType, stackType))
      ensures forall k :: k in old(bytes) ==> k in bytes && bytes[k] == old(bytes)[k]
    {
      hide Convert, IsBox, IsLaidOut, IsLinked;
      var bits := Decode(Read(bytes, pValue, stackType.descriptor.bodySize));
      var v: nat;
      match valueType.descriptor.bodySize {
        case 1 =>
          match stackType.descriptor.bodySize {
            case 2 => v := Convert(bits, valueType, stackType);
            case 4 => v := Convert(bits, valueType, stackType);
            case _ => return Failure(InvalidCast);
          }
        case 2 =>
          match stackType.descriptor.bodySize {
            case 1 => v := Convert(bits, valueType, stackType);
            case 4 => v := Convert(bits, valueType, stackType);
            case _ => return Failure(InvalidCast);
          }
        case 4 =>
          match stackType.descriptor.bodySize {
            case 1 => v := Convert(bits, valueType, stackType);
            case 2 => v := Convert(bits, valueType, stackType);
            case 8 => v := Convert(bits, valueType, stackType);
            case _ => return Failure(InvalidCast);
          }
        case _ => return Failure(InvalidCast);
      }
      var d := valueType.descriptor;
      var p := Allocate(d, WORD + d.bodySize + |d.interfaces| * WORD);
      CopyIn(p, d, Encode(v, d.bodySize));
      return Success(p);
    }

    /** il2c_unbox__: a box of the exact type gives its data; nothing else is let through. */
    method Unbox(p: nat, d: Descriptor) returns (r: Result<nat, Error>)
      requires p == 0 || p in headers
      ensures p == 0 ==> r == if d.isValue then Failure(NullReference) else Success(0)
      ensures p != 0 ==> (r.Success? <==> headers[p] == d) && (r.Failure? ==> r.error == InvalidCast)
      ensures forall data :: p != 0 && IsBox(p, d, data) ==>
                r.Success? && IsReadable(bytes, r.value, |data|) && Read(bytes, r.value, |data|) == data
    {
      if p == 0 {
        if d.isValue { return Failure(NullReference); }
        return Success(0);
      }
      if headers[p] != d { return Failure(InvalidCast); }
      return Success(p + WORD);
    }

    /** Boxing a value and unboxing it gives its bytes back. */
    method UnboxAfterBox(pValue: nat, d: Descriptor) returns (data: seq<Byte>)
      requires d.isValue && IsLaidOut(d) && IsLinked(vtables, d) && IsReadable(bytes, pValue, d.bodySize)
      modifies this
      ensures data == Read(old(bytes), pValue, d.bodySize)
    {
      var p := Box(pValue, d);
      var r := Unbox(p, d);
      data := Read(bytes, r.value, d.bodySize);
    }

    /** Boxing an integer with conversion and unboxing it: for every supported pair of sizes and all four sign
        combinations, the source value modulo the destination's width. */
    method UnboxAfterBox2(pValue: nat, valueType: IntegerType, stackType: IntegerType) returns (r: Result<int, Error>)
      requires IsIntegerType(valueType) && IsIntegerType(stackType)
      requires IsLaidOut(valueType.descriptor) && IsLinked(vtables, valueType.descriptor)
      requires IsReadable(bytes, pValue, stackType.descriptor.bodySize)
      modifies this
      ensures r.Success? <==> IsSupported(valueType.descriptor.bodySize, stackType.descriptor.bodySize)
      ensures r.Success? ==>
                var source := Typed(Decode(Read(old(bytes), pValue, stackType.descriptor.bodySize)), stackType);
                && IsValueOf(r.value, valueType) && (r.value - source) % Power256(valueType.descriptor.bodySize) == 0
                && (IsValueOf(source, valueType) ==> r.value == source)
    {
      hide IsLaidOut, IsLinked, IsValueOf, Typed;
      var bits := Decode(Read(bytes, pValue, stackType.descriptor.bodySize));
      var box := Box2(pValue, valueType, stackType);
      if box.Failure? { return Failure(box.error); }
      ghost var data := BoxedData(Read(old(bytes), pValue, stackType.descriptor.bodySize), valueType, stackType);
      var q := Unbox(box.value, valueType.descriptor);
      var result := Typed(Decode(Read(bytes, q.value, valueType.descriptor.bodySize)), valueType);
      ConvertMeaning(bits, valueType, stackType);
      DecodeEncode(Convert(bits, valueType, stackType), valueType.descriptor.bodySize);
      if IsValueOf(Typed(bits, stackType), valueType) {
        FittingValueSurvives(result, Typed(bits, stackType), valueType);
      }
      return Success(result);
    }
  }

  /** The bytes that are copied into the box of an integer. */
  function BoxedData(source: seq<Byte>, valueType: IntegerType, stackType: IntegerType): seq<Byte> {
    Encode(Convert(Decode(source), valueType, stackType), valueType.descriptor.bodySize)
  }

  lemma PlacesInside(p: nat, d: Descriptor)
    requires IsLaidOut(d)
    ensures forall k :: IsVptrPlace(p, d, k) ==> IsWithin(k, p, AllocatedSize(d))
  {
    assert forall i :: 0 <= i < |d.interfaces| ==> d.interfaces[i] in d.interfaces;
  }

  lemma ClearedBytes(m: Bytes, p: nat, n: nat)
    requires IsReadable(m, p, n) && Read(m, p, n) == seq(n, _ => 0)
    ensures forall k :: p <= k < p + n ==> m[k] == 0
  {
    forall k | p <= k < p + n ensures m[k] == 0 {
      assert Read(m, p, n)[k - p] == 0;
    }
  }

  lemma {:induction false} WordRoundTrip(m: Bytes, a: nat, w: nat)
    requires w < Power256(WORD)
    ensures var n := Write(m, a, Encode(w, WORD)); ReadWord(n, a) == w
  {
    DecodeEncode(w, WORD);
  }

  /** A static cast to an interface of a base class finds the vptr in every derived object. */
  lemma {:induction false} StaticCast(m: Bytes, v: Vtables, a: nat, t: ClassInformation, s: ClassInformation, name: string, vtableOf: (string, string) -> nat)
    requires s in Lineage(t) && name in Took(s) && IsObject(m, v, a, ClassDescriptor(t, vtableOf))
    ensures HasVptr(m, v, a, AdjustorOffset(s, name))
    decreases t
  {
    SlotInLineage(t, s, name);
    InterfaceTypesMeaning(t);
    var d := ClassDescriptor(t, vtableOf);
    var i :| 0 <= i < |InterfaceTypes(t)| && InterfaceTypes(t)[i] == name;
    assert d.interfaces[i] in d.interfaces && d.interfaces[i].offset == AdjustorOffset(t, name);
  }

  lemma {:induction false} SlotInLineage(t: ClassInformation, s: ClassInformation, name: string)
    requires s in Lineage(t) && name in Took(s)
    ensures name in Took(t) && AdjustorOffset(t, name) == AdjustorOffset(s, name)
    decreases t
  {
    if s != t {
      SlotInLineage(t.baseType.value, s, name);
      BaseSlotStays(t, name);
    }
  }
}
