/** Which references a store can add to an object, a frame or an array (IL2C.Runtime/src/Core/il2c_gc.c). */
module GcStores {
  import opened RefHeaders
  import opened GcMark

  function Put(slots: Slots, o: nat, v: Addr): Slots { slots[o := v] }

  /** Storing into one slot adds at most that reference. */
  lemma {:induction false} StoredSlot(slots: Slots, t: RuntimeType, index: nat, offset: nat, o: nat, v: Addr, e: Addr)
    requires e in References(slots[o := v], t, index, offset)
    ensures e == v || e in References(slots, t, index, offset)
    decreases t, |t.markTargets| - index
  {
    hide References;
    var stored := slots[o := v];
    if index >= |t.markTargets| {
      NoMoreReferences(stored, t, index, offset, References(stored, t, index, offset), []);
    } else {
      var before, after := FoundAt(slots, t, index, offset), FoundAt(stored, t, index, offset);
      ReferencesSplit(slots, t, index, offset, before);
      ReferencesSplit(stored, t, index, offset, after);
      if e in References(stored, t, index + 1, offset) {
        StoredSlot(slots, t, index + 1, offset, o, v, e);
      } else {
        match t.markTargets[index] {
          case ReferenceField(x) => assert before == [Load(slots, x + offset)];
          case ValueField(u, x) => StoredSlot(slots, u, 0, x + offset, o, v, e);
        }
      }
    }
  }

  function FoundAt(slots: Slots, t: RuntimeType, index: nat, offset: nat): seq<Addr>
    requires index < |t.markTargets|
  {
    match t.markTargets[index]
    case ReferenceField(o) => [Load(slots, o + offset)]
    case ValueField(u, o) => References(slots, u, 0, o + offset)
  }

  lemma {:induction false} StoredElement(t: RuntimeType, elements: seq<Slots>, k: nat, o: nat, v: Addr, e: Addr)
    requires k < |elements| && e in ElementReferences(t, elements[k := Put(elements[k], o, v)])
    ensures e == v || e in ElementReferences(t, elements)
  {
    if k == 0 {
      if e in References(elements[0][o := v], t, 0, 0) { StoredSlot(elements[0], t, 0, 0, o, v, e); }
    } else {
      assert elements[k := Put(elements[k], o, v)][1..] == elements[1..][k - 1 := Put(elements[1..][k - 1], o, v)];
      if e !in References(elements[0], t, 0, 0) { StoredElement(t, elements[1..], k - 1, o, v, e); }
    }
  }

  function StoreInto(d: ValueDescriptor, o: nat, v: Addr): ValueDescriptor {
    d.(slots := d.slots[o := v])
  }

  lemma {:induction false} StoredDescriptor(values: seq<ValueDescriptor>, k: nat, o: nat, v: Addr, e: Addr)
    requires k < |values| && e in DescriptorReferences(values[k := StoreInto(values[k], o, v)])
    ensures e == v || e in DescriptorReferences(values)
  {
    var d := values[0];
    if k == 0 {
      if e in References(d.slots[o := v], d.valueType, 0, 0) { StoredSlot(d.slots, d.valueType, 0, 0, o, v, e); }
    } else {
      assert values[k := StoreInto(values[k], o, v)][1..] == values[1..][k - 1 := StoreInto(values[1..][k - 1], o, v)];
      if e !in References(d.slots, d.valueType, 0, 0) { StoredDescriptor(values[1..], k - 1, o, v, e); }
    }
  }

  function LocalStored(frame: Tracking, i: nat, v: Addr): Tracking {
    if i < |frame.references| then frame.(references := frame.references[i := v]) else frame
  }

  function ValueStored(frame: Tracking, i: nat, o: nat, v: Addr): Tracking {
    if i < |frame.values| then frame.(values := frame.values[i := StoreInto(frame.values[i], o, v)]) else frame
  }

  predicate FrameGains(before: Tracking, after: Tracking, v: Addr) {
    forall e :: e in after.references + DescriptorReferences(after.values) ==>
      e == v || e in before.references + DescriptorReferences(before.values)
  }

  lemma LocalGains(frame: Tracking, i: nat, v: Addr)
    ensures FrameGains(frame, LocalStored(frame, i, v), v)
  {
  }

  lemma ValueGains(frame: Tracking, i: nat, o: nat, v: Addr)
    ensures FrameGains(frame, ValueStored(frame, i, o, v), v)
  {
    hide DescriptorReferences, StoreInto;
    var after := ValueStored(frame, i, o, v);
    forall e | e in after.references + DescriptorReferences(after.values)
      ensures e == v || e in frame.references + DescriptorReferences(frame.values)
    {
      if e !in frame.references && i < |frame.values| { StoredDescriptor(frame.values, i, o, v, e); }
    }
  }

  /** A frame that gains one reference adds only that reference to the chain. */
  lemma {:induction false} StoredFrame(frames: seq<Tracking>, k: nat, frame: Tracking, v: Addr, e: Addr)
    requires k < |frames| && FrameGains(frames[k], frame, v)
    requires e in TrackingReferences(frames[k := frame])
    ensures e == v || e in TrackingReferences(frames)
  {
    hide DescriptorReferences;
    var stored := frames[k := frame];
    if e in stored[0].references + DescriptorReferences(stored[0].values) {
    } else if k == 0 {
      assert stored[1..] == frames[1..];
    } else {
      assert stored[1..] == frames[1..][k - 1 := frame];
      StoredFrame(frames[1..], k - 1, frame, v, e);
    }
  }

  lemma {:induction false} DroppedFrame(frames: seq<Tracking>, e: Addr)
    requires frames != [] && e in TrackingReferences(frames[1..])
    ensures e in TrackingReferences(frames)
  {
  }

  // ---------------------------------------------------------------------------------------------
  // Cleared memory holds no references

  function Zeros(n: nat): (r: seq<Addr>)
    ensures |r| == n && forall i :: 0 <= i < n ==> r[i] == 0
  {
    seq(n, _ => 0)
  }

  lemma {:induction false} ClearedSlots(t: RuntimeType, index: nat, offset: nat, e: Addr)
    requires e in References(map[], t, index, offset)
    ensures e == 0
    decreases t, |t.markTargets| - index
  {
    if index < |t.markTargets| && e !in References(map[], t, index + 1, offset) {
      match t.markTargets[index] {
        case ReferenceField(o) =>
        case ValueField(u, o) => ClearedSlots(u, 0, o + offset, e);
      }
    } else if index < |t.markTargets| {
      ClearedSlots(t, index + 1, offset, e);
    }
  }

  function ClearedElements(n: nat): (r: seq<Slots>)
    ensures |r| == n && forall i :: 0 <= i < n ==> r[i] == map[]
  {
    seq(n, _ => map[])
  }

  lemma {:induction false} ClearedElementsHoldNothing(t: RuntimeType, elements: seq<Slots>, e: Addr)
    requires (forall i :: 0 <= i < |elements| ==> elements[i] == map[]) && e in ElementReferences(t, elements)
    ensures e == 0
  {
    if e in References(elements[0], t, 0, 0) {
      ClearedSlots(t, 0, 0, e);
    } else {
      ClearedElementsHoldNothing(t, elements[1..], e);
    }
  }

  function ClearedValues(types: seq<RuntimeType>): (r: seq<ValueDescriptor>)
    ensures |r| == |types| && forall i :: 0 <= i < |r| ==> r[i] == ValueDescriptor(types[i], map[])
  {
    seq(|types|, i requires 0 <= i < |types| => ValueDescriptor(types[i], map[]))
  }

  lemma {:induction false} ClearedValuesHoldNothing(values: seq<ValueDescriptor>, e: Addr)
    requires (forall i :: 0 <= i < |values| ==> values[i].slots == map[]) && e in DescriptorReferences(values)
    ensures e == 0
  {
    if e in References(values[0].slots, values[0].valueType, 0, 0) {
      ClearedSlots(values[0].valueType, 0, 0, e);
    } else {
      ClearedValuesHoldNothing(values[1..], e);
    }
  }

  /** What il2c_link_execution_frame__ and il2c_register_static_fields link: cleared slots. */
  function ClearedTracking(count: nat, types: seq<RuntimeType>): Tracking {
    Tracking(Zeros(count), ClearedValues(types))
  }

  lemma {:induction false} PushedFrame(frames: seq<Tracking>, count: nat, types: seq<RuntimeType>, e: Addr)
    requires e in TrackingReferences([ClearedTracking(count, types)] + frames)
    ensures e == 0 || e in TrackingReferences(frames)
  {
    hide DescriptorReferences;
    var frame := ClearedTracking(count, types);
    assert ([frame] + frames)[1..] == frames;
    if e in DescriptorReferences(frame.values) { ClearedValuesHoldNothing(frame.values, e); }
  }

  /** The bodies an allocation starts from. */
  predicate IsCleared(b: Body) {
    match b
    case Plain(slots) => slots == map[]
    case ReferenceArray(items) => forall i :: 0 <= i < |items| ==> items[i] == 0
    case ValueArray(_, elements) => forall i :: 0 <= i < |elements| ==> elements[i] == map[]
    case Delegate(_) => false
    case Thread(_, _, _, _) => false
  }

  lemma ClearedHoldsNothing(h: Header, e: Addr)
    requires IsCleared(h.body) && e in Edges(h)
    ensures e == 0
  {
    match h.body {
      case Plain(slots) => ClearedSlots(h.runtimeType, 0, if h.runtimeType.isValue then SIZE_OF_VALUE_TYPE else 0, e);
      case ReferenceArray(items) =>
      case ValueArray(t, elements) => ClearedElementsHoldNothing(t, elements, e);
    }
  }

  // ---------------------------------------------------------------------------------------------
  // Stores into objects

  /** Field, array item or array element of an object; other objects and indices stay as they are. */
  function FieldStored(b: Body, o: nat, v: Addr): Body {
    if b.Plain? then Plain(b.slots[o := v]) else b
  }

  function ItemStored(b: Body, i: nat, v: Addr): Body {
    if b.ReferenceArray? && i < |b.items| then ReferenceArray(b.items[i := v]) else b
  }

  function ElementStored(b: Body, i: nat, o: nat, v: Addr): Body {
    if b.ValueArray? && i < |b.elements| then b.(elements := b.elements[i := Put(b.elements[i], o, v)]) else b
  }

  lemma FieldGains(h: Header, o: nat, v: Addr, e: Addr)
    requires e in Edges(h.(body := FieldStored(h.body, o, v)))
    ensures e == v || e in Edges(h)
  {
    if h.body.Plain? {
      StoredSlot(h.body.slots, h.runtimeType, 0, if h.runtimeType.isValue then SIZE_OF_VALUE_TYPE else 0, o, v, e);
    }
  }

  lemma ItemGains(h: Header, i: nat, v: Addr, e: Addr)
    requires e in Edges(h.(body := ItemStored(h.body, i, v)))
    ensures e == v || e in Edges(h)
  {
  }

  lemma ElementGains(h: Header, i: nat, o: nat, v: Addr, e: Addr)
    requires e in Edges(h.(body := ElementStored(h.body, i, o, v)))
    ensures e == v || e in Edges(h)
  {
    if h.body.ValueArray? && i < |h.body.elements| {
      StoredElement(h.body.elementType, h.body.elements, i, o, v, e);
    }
  }

  /** New frames of a thread. */
  lemma {:induction false} FramesGain(h: Header, frames: seq<Tracking>, e: Addr)
    requires h.body.Thread? && e in Edges(h.(body := h.body.(frames := frames)))
    ensures e in TrackingReferences(frames) || e in Edges(h)
  {
  }
}
