/** What a program can load, by the layout of its types alone, and what its stores change of it. The collector follows
    exactly these loads, except those of inherited fields (IL2C.Runtime/src/Core/il2c_gc.c, IL2C.Runtime/src/System/Array.c). */
module GcLoads {
  import opened RefHeaders
  import opened GcMark
  import opened GcStores

  /** The type has an object reference at this byte offset, its own or one of a value inside it. */
  predicate HasReference(t: RuntimeType, o: nat) {
    exists i :: 0 <= i < |t.markTargets| && CoversReference(t.markTargets[i], o)
  }

  predicate CoversReference(field: MarkTarget, o: nat) {
    match field
    case ReferenceField(start) => o == start
    case ValueField(t, start) => start <= o && HasReference(t, o - start)
  }

  /** An object of the type has an object reference at this offset, declared by the type or inherited; base types keep their
      layout in derived types. */
  predicate HasField(t: RuntimeType, o: nat)
    decreases t
  {
    HasReference(t, o) || (t.baseType.Some? && HasField(t.baseType.value, o))
  }

  /** A place of an execution frame or static block: one of its references, or a reference inside one of its values. */
  datatype Spot = Reference(index: nat) | ValueReference(index: nat, offset: nat)

  predicate HasSpot(block: Tracking, s: Spot) {
    match s
    case Reference(i) => i < |block.references|
    case ValueReference(i, o) => i < |block.values| && HasReference(block.values[i].valueType, o)
  }

  function AtSpot(block: Tracking, s: Spot): Addr
    requires HasSpot(block, s)
  {
    match s
    case Reference(i) => block.references[i]
    case ValueReference(i, o) => Load(block.values[i].slots, o)
  }

  /** A place of an object. Anchor and frames are places of a thread's context. */
  datatype Place =
    | Field(offset: nat)
    | Target(index: nat)
    | Item(index: nat)
    | Element(index: nat, offset: nat)
    | Start
    | Parameter
    | TemporaryAnchor
    | Local(frame: nat, spot: Spot)

  /** The fields of a boxed value lie behind the header it gets as an object; a thread without a start has no parameter. */
  predicate HasPlace(h: Header, p: Place) {
    match p
    case Field(o) =>
      h.body.Plain? &&
      if h.runtimeType.isValue then o >= SIZE_OF_VALUE_TYPE && HasField(h.runtimeType, o - SIZE_OF_VALUE_TYPE)
      else HasField(h.runtimeType, o)
    case Target(i) => h.body.Delegate? && i < |h.body.targets|
    case Item(i) => h.body.ReferenceArray? && i < |h.body.items|
    case Element(i, o) => h.body.ValueArray? && i < |h.body.elements| && HasReference(h.body.elementType, o)
    case Start => h.body.Thread?
    case Parameter => h.body.Thread? && h.body.start != 0
    case TemporaryAnchor => h.body.Thread?
    case Local(k, s) => h.body.Thread? && k < |h.body.frames| && HasSpot(h.body.frames[k], s)
  }

  /** The place is none of an inherited field: these the collector does not follow. */
  predicate IsFollowed(h: Header, p: Place) {
    p.Field? ==>
      if h.runtimeType.isValue then p.offset >= SIZE_OF_VALUE_TYPE && HasReference(h.runtimeType, p.offset - SIZE_OF_VALUE_TYPE)
      else HasReference(h.runtimeType, p.offset)
  }

  function LoadAt(h: Header, p: Place): Addr
    requires HasPlace(h, p)
  {
    match p
    case Field(o) => Load(h.body.slots, o)
    case Target(i) => h.body.targets[i]
    case Item(i) => h.body.items[i]
    case Element(i, o) => Load(h.body.elements[i], o)
    case Start => h.body.start
    case Parameter => h.body.parameter
    case TemporaryAnchor => h.body.temporaryReferenceAnchor
    case Local(k, s) => AtSpot(h.body.frames[k], s)
  }

  // ---------------------------------------------------------------------------------------------
  // The collector's walk finds the loads and nothing else

  lemma {:induction false} FoundSomewhere(slots: Slots, t: RuntimeType, index: nat, offset: nat, e: Addr)
    ensures e in References(slots, t, index, offset) <==>
            exists i :: index <= i < |t.markTargets| && e in FoundAt(slots, t, i, offset)
    decreases |t.markTargets| - index
  {
    hide References;
    if index < |t.markTargets| {
      ReferencesSplit(slots, t, index, offset, FoundAt(slots, t, index, offset));

      FoundSomewhere(slots, t, index + 1, offset, e);
    } else {
      NoMoreReferences(slots, t, index, offset, References(slots, t, index, offset), []);
    }
  }

  /** Some reference of the type, read from raw memory at this offset, is e. */
  ghost predicate IsLoad(slots: Slots, t: RuntimeType, offset: nat, e: Addr) {
    exists o: nat :: HasReference(t, o) && Load(slots, o + offset) == e
  }

  ghost predicate IsFieldLoad(slots: Slots, field: MarkTarget, offset: nat, e: Addr) {
    exists o: nat :: CoversReference(field, o) && Load(slots, o + offset) == e
  }

  lemma {:induction false} ReferencesAreLoads(slots: Slots, t: RuntimeType, offset: nat, e: Addr)
    ensures e in References(slots, t, 0, offset) <==> IsLoad(slots, t, offset, e)
    decreases t
  {
    hide References, FoundAt, IsLoad, IsFieldLoad;
    FoundSomewhere(slots, t, 0, offset, e);
    forall i | 0 <= i < |t.markTargets| ensures e in FoundAt(slots, t, i, offset) <==> IsFieldLoad(slots, t.markTargets[i], offset, e) {
      FieldIsLoad(slots, t, i, offset, e);
    }
    FieldLoadsAreLoads(slots, t, offset, e);
  }

  lemma {:induction false} FieldLoadsAreLoads(slots: Slots, t: RuntimeType, offset: nat, e: Addr)
    ensures IsLoad(slots, t, offset, e) <==> exists i :: 0 <= i < |t.markTargets| && IsFieldLoad(slots, t.markTargets[i], offset, e)
  {
    if i :| 0 <= i < |t.markTargets| && IsFieldLoad(slots, t.markTargets[i], offset, e) {
      var o: nat :| CoversReference(t.markTargets[i], o) && Load(slots, o + offset) == e;
      assert HasReference(t, o);
    }
    if IsLoad(slots, t, offset, e) {
      var o: nat :| HasReference(t, o) && Load(slots, o + offset) == e;
      var i :| 0 <= i < |t.markTargets| && CoversReference(t.markTargets[i], o);
      assert IsFieldLoad(slots, t.markTargets[i], offset, e);
    }
  }

  lemma {:induction false} FieldIsLoad(slots: Slots, t: RuntimeType, i: nat, offset: nat, e: Addr)
    requires i < |t.markTargets|
    ensures e in FoundAt(slots, t, i, offset) <==> IsFieldLoad(slots, t.markTargets[i], offset, e)
    decreases t, 0
  {
    hide References;
    match t.markTargets[i] {
      case ReferenceField(start) =>
        assert CoversReference(t.markTargets[i], start);
      case ValueField(u, start) =>
        ReferencesAreLoads(slots, u, start + offset, e);
        if IsLoad(slots, u, start + offset, e) {
          var o: nat :| HasReference(u, o) && Load(slots, o + (start + offset)) == e;
          assert start + o - start == o && (start + o) + offset == o + (start + offset);
          assert CoversReference(t.markTargets[i], start + o);
        }
        if IsFieldLoad(slots, t.markTargets[i], offset, e) {
          var o: nat :| CoversReference(t.markTargets[i], o) && Load(slots, o + offset) == e;
          assert HasReference(u, o - start) && (o - start) + (start + offset) == o + offset;
        }
    }
  }

  lemma {:induction false} InSomeElement(t: RuntimeType, elements: seq<Slots>, e: Addr)
    ensures e in ElementReferences(t, elements) <==> exists k :: 0 <= k < |elements| && e in References(elements[k], t, 0, 0)
  {
    hide References;
    if elements != [] {
      InSomeElement(t, elements[1..], e);
      if k :| 0 <= k < |elements| && e in References(elements[k], t, 0, 0) {
        assert k > 0 ==> elements[1..][k - 1] == elements[k];
      }
    }
  }

  lemma {:induction false} InSomeValue(values: seq<ValueDescriptor>, e: Addr)
    ensures e in DescriptorReferences(values) <==>
            exists k :: 0 <= k < |values| && e in References(values[k].slots, values[k].valueType, 0, 0)
  {
    hide References;
    if values != [] {
      InSomeValue(values[1..], e);
      if k :| 0 <= k < |values| && e in References(values[k].slots, values[k].valueType, 0, 0) {
        assert k > 0 ==> values[1..][k - 1] == values[k];
      }
    }
  }

  lemma {:induction false} InSomeFrame(frames: seq<Tracking>, e: Addr)
    ensures e in TrackingReferences(frames) <==>
            exists k :: 0 <= k < |frames| && e in frames[k].references + DescriptorReferences(frames[k].values)
  {
    hide DescriptorReferences;
    if frames != [] {
      InSomeFrame(frames[1..], e);
      if k :| 0 <= k < |frames| && e in frames[k].references + DescriptorReferences(frames[k].values) {
        assert k > 0 ==> frames[1..][k - 1] == frames[k];
      }
    }
  }

  /** Some place of the block holds e. */
  ghost predicate HoldsAtSpot(block: Tracking, e: Addr) {
    exists s :: HasSpot(block, s) && AtSpot(block, s) == e
  }

  lemma SpotHolds(block: Tracking, s: Spot)
    requires HasSpot(block, s)
    ensures HoldsAtSpot(block, AtSpot(block, s))
  {
  }

  lemma BlockIsLoads(block: Tracking, e: Addr)
    ensures e in block.references + DescriptorReferences(block.values) <==> HoldsAtSpot(block, e)
  {
    hide References, DescriptorReferences, IsLoad, HoldsAtSpot;
    InSomeValue(block.values, e);
    forall k | 0 <= k < |block.values|
      ensures e in References(block.values[k].slots, block.values[k].valueType, 0, 0) <==>
              IsLoad(block.values[k].slots, block.values[k].valueType, 0, e)
    {
      ReferencesAreLoads(block.values[k].slots, block.values[k].valueType, 0, e);
    }
    SpotsMeaning(block, e);
  }

  lemma SpotsMeaning(block: Tracking, e: Addr)
    ensures HoldsAtSpot(block, e) <==>
            || e in block.references
            || exists k :: 0 <= k < |block.values| && IsLoad(block.values[k].slots, block.values[k].valueType, 0, e)
  {
    if e in block.references {
      var i :| 0 <= i < |block.references| && block.references[i] == e;
      SpotHolds(block, Reference(i));
    }
    if k :| 0 <= k < |block.values| && IsLoad(block.values[k].slots, block.values[k].valueType, 0, e) {
      var o: nat :| HasReference(block.values[k].valueType, o) && Load(block.values[k].slots, o + 0) == e;
      SpotHolds(block, ValueReference(k, o));
    }
    if HoldsAtSpot(block, e) {
      var s :| HasSpot(block, s) && AtSpot(block, s) == e;
      if s.ValueReference? { LoadFound(block.values[s.index].slots, block.values[s.index].valueType, 0, s.offset); }
    }
  }

  lemma {:induction false} LoadFound(slots: Slots, t: RuntimeType, offset: nat, o: nat)
    requires HasReference(t, o)
    ensures IsLoad(slots, t, offset, Load(slots, o + offset))
  {
  }

  /** The collector follows from execution frames and static blocks exactly what a program can load from them. */
  lemma {:induction false} BlocksAreLoads(blocks: seq<Tracking>, e: Addr)
    ensures e in TrackingReferences(blocks) <==> exists k :: 0 <= k < |blocks| && HoldsAtSpot(blocks[k], e)
  {
    hide TrackingReferences, DescriptorReferences, HoldsAtSpot;
    InSomeFrame(blocks, e);
    forall k | 0 <= k < |blocks|
      ensures e in blocks[k].references + DescriptorReferences(blocks[k].values) <==> HoldsAtSpot(blocks[k], e)
    {
      BlockIsLoads(blocks[k], e);
    }
  }

  /** Some followed place of the object holds e. */
  ghost predicate HoldsAtPlace(h: Header, e: Addr) {
    exists p :: HasPlace(h, p) && IsFollowed(h, p) && LoadAt(h, p) == e
  }

  lemma PlaceHolds(h: Header, p: Place)
    requires HasPlace(h, p) && IsFollowed(h, p)
    ensures HoldsAtPlace(h, LoadAt(h, p))
  {
  }

  lemma FieldsAreFollowed(h: Header, e: Addr)
    requires h.body.Plain?
    ensures e in Edges(h) <==> HoldsAtPlace(h, e)
  {
    hide References, HasReference, HoldsAtPlace;
    var slots, t := h.body.slots, h.runtimeType;
    var start := if t.isValue then SIZE_OF_VALUE_TYPE else 0;
    ReferencesAreLoads(slots, t, start, e);
    if IsLoad(slots, t, start, e) {
      var o: nat :| HasReference(t, o) && Load(slots, o + start) == e;
      assert o + start - start == o;
      PlaceHolds(h, Field(o + start));
    }
    if HoldsAtPlace(h, e) {
      var p := PlaceOf(h, e);
      LoadFound(slots, t, start, p.offset - start);
      assert p.offset - start + start == p.offset;
    }
  }

  ghost function PlaceOf(h: Header, e: Addr): (p: Place)
    requires HoldsAtPlace(h, e)
    ensures HasPlace(h, p) && IsFollowed(h, p) && LoadAt(h, p) == e
  {
    var p :| HasPlace(h, p) && IsFollowed(h, p) && LoadAt(h, p) == e;
    p
  }

  lemma ElementsAreFollowed(h: Header, e: Addr)
    requires h.body.ValueArray?
    ensures e in Edges(h) <==> HoldsAtPlace(h, e)
  {
    hide References, HasReference, HoldsAtPlace;
    var elements, t := h.body.elements, h.body.elementType;
    InSomeElement(t, elements, e);
    if k :| 0 <= k < |elements| && e in References(elements[k], t, 0, 0) {
      ReferencesAreLoads(elements[k], t, 0, e);
      var o: nat :| HasReference(t, o) && Load(elements[k], o + 0) == e;
      PlaceHolds(h, Element(k, o));
    }
    if HoldsAtPlace(h, e) {
      var p := PlaceOf(h, e);
      ReferencesAreLoads(elements[p.index], t, 0, e);
      LoadFound(elements[p.index], t, 0, p.offset);
      assert p.offset + 0 == p.offset;
    }
  }

  lemma ListsAreFollowed(h: Header, e: Addr)
    requires h.body.Delegate? || h.body.ReferenceArray?
    ensures e in Edges(h) <==> HoldsAtPlace(h, e)
  {
    hide HoldsAtPlace;
    if h.body.Delegate? && e in h.body.targets {
      var i :| 0 <= i < |h.body.targets| && h.body.targets[i] == e;
      PlaceHolds(h, Target(i));
    }
    if h.body.ReferenceArray? && e in h.body.items {
      var i :| 0 <= i < |h.body.items| && h.body.items[i] == e;
      PlaceHolds(h, Item(i));
    }
    if HoldsAtPlace(h, e) { var p := PlaceOf(h, e); }
  }

  lemma ContextIsFollowed(h: Header, e: Addr)
    requires h.body.Thread? && e != 0
    ensures e in Edges(h) <==> HoldsAtPlace(h, e)
  {
    hide TrackingReferences, DescriptorReferences, HoldsAtPlace, HasSpot, AtSpot, HoldsAtSpot;
    var b := h.body;
    BlocksAreLoads(b.frames, e);
    ContextPlaces(h, e);
  }

  lemma ContextPlaces(h: Header, e: Addr)
    requires h.body.Thread? && e != 0
    ensures HoldsAtPlace(h, e) <==>
            || e == h.body.start || (h.body.start != 0 && e == h.body.parameter) || e == h.body.temporaryReferenceAnchor
            || exists k :: 0 <= k < |h.body.frames| && HoldsAtSpot(h.body.frames[k], e)
  {
    hide HasSpot, AtSpot, HoldsAtPlace;
    var b := h.body;
    if e == b.start { PlaceHolds(h, Start); }
    if b.start != 0 && e == b.parameter { PlaceHolds(h, Parameter); }
    if e == b.temporaryReferenceAnchor { PlaceHolds(h, TemporaryAnchor); }
    if k :| 0 <= k < |b.frames| && HoldsAtSpot(b.frames[k], e) {
      var s :| HasSpot(b.frames[k], s) && AtSpot(b.frames[k], s) == e;
      PlaceHolds(h, Local(k, s));
    }
    if HoldsAtPlace(h, e) {
      var p := PlaceOf(h, e);
      if p.Local? { SpotHolds(b.frames[p.frame], p.spot); }
    }
  }

  /** The collector follows from an object exactly what a program can load from it, inherited fields apart. */
  lemma EdgesAreLoads(h: Header, e: Addr)
    requires e != 0
    ensures e in Edges(h) <==> HoldsAtPlace(h, e)
  {
    hide HoldsAtPlace, Edges;
    match h.body {
      case Plain(_) => FieldsAreFollowed(h, e);
      case Delegate(_) => ListsAreFollowed(h, e);
      case ReferenceArray(_) => ListsAreFollowed(h, e);
      case ValueArray(_, _) => ElementsAreFollowed(h, e);
      case Thread(_, _, _, _) => ContextIsFollowed(h, e);
    }
  }

  // ---------------------------------------------------------------------------------------------
  // Stores and loads

  /** A store makes its value loadable from the place it names, and every other place reads what it read. */
  lemma FieldReads(h: Header, o: nat, v: Addr, p: Place)
    ensures var n := h.(body := FieldStored(h.body, o, v));
            && (HasPlace(n, p) <==> HasPlace(h, p))
            && (HasPlace(h, p) ==> LoadAt(n, p) == if p == Field(o) then v else LoadAt(h, p))
  {
    hide HasReference, HasField;
  }

  lemma ItemReads(h: Header, i: nat, v: Addr, p: Place)
    ensures var n := h.(body := ItemStored(h.body, i, v));
            && (HasPlace(n, p) <==> HasPlace(h, p))
            && (HasPlace(h, p) ==> LoadAt(n, p) == if p == Item(i) then v else LoadAt(h, p))
  {
    hide HasReference, HasField;
  }

  lemma ElementReads(h: Header, i: nat, o: nat, v: Addr, p: Place)
    ensures var n := h.(body := ElementStored(h.body, i, o, v));
            && (HasPlace(n, p) <==> HasPlace(h, p))
            && (HasPlace(h, p) ==> LoadAt(n, p) == if p == Element(i, o) then v else LoadAt(h, p))
  {
    hide HasReference, HasField;
  }

  lemma LocalReads(block: Tracking, i: nat, v: Addr, s: Spot)
    ensures var stored := LocalStored(block, i, v);
            && (HasSpot(stored, s) <==> HasSpot(block, s))
            && (HasSpot(block, s) ==> AtSpot(stored, s) == if s == Reference(i) then v else AtSpot(block, s))
  {
    hide HasReference, HasField;
  }

  lemma ValueReads(block: Tracking, i: nat, o: nat, v: Addr, s: Spot)
    ensures var stored := ValueStored(block, i, o, v);
            && (HasSpot(stored, s) <==> HasSpot(block, s))
            && (HasSpot(block, s) ==> AtSpot(stored, s) == if s == ValueReference(i, o) then v else AtSpot(block, s))
  {
    hide HasReference, HasField;
  }

  /** A linked frame or block has the declared places, and all of them read null. */
  lemma ClearedReads(count: nat, types: seq<RuntimeType>, s: Spot)
    ensures var block := ClearedTracking(count, types);
            && (HasSpot(block, s) <==>
                (s.Reference? && s.index < count) || (s.ValueReference? && s.index < |types| && HasReference(types[s.index], s.offset)))
            && (HasSpot(block, s) ==> AtSpot(block, s) == 0)
  {
    hide HasReference, HasField;
  }

  /** So do the places of a new object. */
  lemma ClearedBodyReads(h: Header, p: Place)
    requires IsCleared(h.body) && HasPlace(h, p)
    ensures LoadAt(h, p) == 0
  {
    hide HasReference, HasField;
  }
}
