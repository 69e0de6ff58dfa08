/** Step 2 of the collector: marking by recursion over descriptors (IL2C.Runtime/src/Core/il2c_gc.c). */
module GcMark {
  import opened RefHeaders

  /** Nothing left to do for a reference: it is null, const or marked. */
  ghost predicate Settled(m: Memory, index: MarkIndex, a: Addr) {
    a == 0 || (a in m && (IsConst(m[a].characteristic) || IsMarked(m[a].characteristic, index)))
  }

  ghost predicate AllSettled(m: Memory, index: MarkIndex, refs: seq<Addr>) {
    forall a :: a in refs ==> Settled(m, index, a)
  }

  ghost predicate Changed(m: Memory, n: Memory, a: Addr) {
    a in m && a in n && m[a] != n[a]
  }

  /** From m to n, some unmarked objects that are not const got their mark flipped and nothing else changed. */
  ghost predicate OnlyMarks(m: Memory, n: Memory, index: MarkIndex) {
    && m.Keys == n.Keys
    && forall a :: a in m ==>
         || n[a] == m[a]
         || (TryGetHeader(m[a].characteristic, index) && n[a] == m[a].(characteristic := FlipMark(m[a].characteristic)))
  }

  /** Every newly marked object has all its references settled. */
  ghost predicate Closes(m: Memory, n: Memory, index: MarkIndex) {
    forall a :: Changed(m, n, a) ==> AllSettled(n, index, Edges(m[a]))
  }

  /** Everything newly marked is reached from one of refs. */
  ghost predicate ReachedFrom(m: Memory, n: Memory, refs: seq<Addr>) {
    forall a :: Changed(m, n, a) ==> Reachable(m, refs, a)
  }

  /** The effect of marking everything reachable from refs. */
  ghost predicate Marks(m: Memory, n: Memory, index: MarkIndex, refs: seq<Addr>) {
    OnlyMarks(m, n, index) && Closes(m, n, index) && ReachedFrom(m, n, refs) && AllSettled(n, index, refs)
  }

  /** s holds only allocated objects and everything they refer to. */
  ghost predicate ClosedSet(m: Memory, s: set<Addr>) {
    forall a :: a in s ==> a in m && (!IsConst(m[a].characteristic) ==> ValidRefs(s, Edges(m[a])))
  }

  ghost predicate ValidRefs(s: set<Addr>, refs: seq<Addr>) {
    forall a :: a in refs && a != 0 ==> a in s
  }

  ghost function Unmarked(m: Memory, index: MarkIndex, s: set<Addr>): set<Addr> {
    set a | a in s && a in m && TryGetHeader(m[a].characteristic, index)
  }

  lemma OnlyMarksFacts(m: Memory, n: Memory, index: MarkIndex, a: Addr)
    requires OnlyMarks(m, n, index) && a in m
    ensures Edges(n[a]) == Edges(m[a]) && IsConst(n[a].characteristic) == IsConst(m[a].characteristic)
    ensures n[a].pNext == m[a].pNext && n[a].runtimeType == m[a].runtimeType && n[a].body == m[a].body
    ensures Changed(m, n, a) <==> TryGetHeader(m[a].characteristic, index) && IsMarked(n[a].characteristic, index)
    ensures !Changed(m, n, a) ==> n[a] == m[a]
    ensures Settled(m, index, a) ==> Settled(n, index, a)
    ensures TryGetHeader(n[a].characteristic, index) ==> TryGetHeader(m[a].characteristic, index)
    ensures IsInitialized(n[a].characteristic) == IsInitialized(m[a].characteristic)
    ensures IsFinalizerCalled(n[a].characteristic) == IsFinalizerCalled(m[a].characteristic)
  {
  }

  lemma MarksKeepGraph(m: Memory, n: Memory, index: MarkIndex)
    requires OnlyMarks(m, n, index)
    ensures SameGraph(m, n)
  {
    hide Edges, OnlyMarks;
    assert m.Keys == n.Keys by { SameKeys(m, n, index); }
    forall a | a in m ensures Edges(m[a]) == Edges(n[a]) && IsConst(m[a].characteristic) == IsConst(n[a].characteristic) {
      OnlyMarksFacts(m, n, index, a);
    }
  }

  lemma SameKeys(m: Memory, n: Memory, index: MarkIndex)
    requires OnlyMarks(m, n, index)
    ensures m.Keys == n.Keys
  {
  }

  lemma SettledStays(m: Memory, n: Memory, index: MarkIndex, refs: seq<Addr>)
    requires OnlyMarks(m, n, index) && AllSettled(m, index, refs)
    ensures AllSettled(n, index, refs)
  {
    hide OnlyMarks;
    forall a | a in refs ensures Settled(n, index, a) {
      if a in m { OnlyMarksFacts(m, n, index, a); }
    }
  }

  lemma UnmarkedShrinks(m: Memory, n: Memory, index: MarkIndex, s: set<Addr>)
    requires OnlyMarks(m, n, index)
    ensures Unmarked(n, index, s) <= Unmarked(m, index, s)
    ensures |Unmarked(n, index, s)| <= |Unmarked(m, index, s)|
  {
    hide OnlyMarks, Settled, Changed, Edges;
    SameKeys(m, n, index);
    forall a | a in Unmarked(n, index, s) ensures a in Unmarked(m, index, s) {
      OnlyMarksFacts(m, n, index, a);
    }
    SubsetCardinality(Unmarked(n, index, s), Unmarked(m, index, s));
  }

  lemma {:induction false} SubsetCardinality(s: set<Addr>, t: set<Addr>)
    requires s <= t
    ensures |s| <= |t|
  {
    if s != {} {
      var a :| a in s;
      SubsetCardinality(s - {a}, t - {a});
    }
  }

  lemma ClosedStays(m: Memory, n: Memory, index: MarkIndex, s: set<Addr>)
    requires OnlyMarks(m, n, index) && ClosedSet(m, s)
    ensures ClosedSet(n, s)
  {
    hide OnlyMarks, Settled, Changed, Edges;
    SameKeys(m, n, index);
    forall a | a in s
      ensures a in n && (!IsConst(n[a].characteristic) ==> ValidRefs(s, Edges(n[a])))
    {
      OnlyMarksFacts(m, n, index, a);
    }
  }

  lemma MarksNothing(m: Memory, index: MarkIndex, refs: seq<Addr>)
    requires AllSettled(m, index, refs)
    ensures Marks(m, m, index, refs)
  {
  }

  /** Marking refs and then more refs is marking both. */
  lemma MarksCompose(m: Memory, n: Memory, o: Memory, index: MarkIndex, a: seq<Addr>, b: seq<Addr>)
    requires Marks(m, n, index, a) && Marks(n, o, index, b)
    ensures Marks(m, o, index, a + b)
  {
    hide Settled, Edges, Reaches;
    ComposeOnly(m, n, o, index);
    MarksKeepGraph(m, n, index);
    SettledStays(n, o, index, a);
    hide OnlyMarks;
    forall x | Changed(m, o, x) ensures AllSettled(o, index, Edges(m[x])) && Reachable(m, a + b, x) {
      OnlyMarksFacts(m, n, index, x);
      SameKeys(m, n, index);
      if Changed(m, n, x) {
        SettledStays(n, o, index, Edges(m[x]));
        var r :| r in a && r != 0 && Reaches(m, r, x);
        assert r in a + b;
      } else {
        assert Changed(n, o, x);
        var r :| r in b && r != 0 && Reaches(n, r, x);
        ReachesSameGraph(m, n, r, x);
        assert r in a + b;
      }
    }
  }

  lemma ComposeOnly(m: Memory, n: Memory, o: Memory, index: MarkIndex)
    requires OnlyMarks(m, n, index) && OnlyMarks(n, o, index)
    ensures OnlyMarks(m, o, index)
  {
    forall a | a in m
      ensures o[a] == m[a] || (TryGetHeader(m[a].characteristic, index) &&
                               o[a] == m[a].(characteristic := FlipMark(m[a].characteristic)))
    {
      if n[a] != m[a] {
        assert IsMarked(n[a].characteristic, index);
      }
    }
  }

  /** Flipping one object and then marking its references is marking that object. */
  lemma MarksObject(m: Memory, n: Memory, o: Memory, index: MarkIndex, a: Addr)
    requires a in m && a != 0 && TryGetHeader(m[a].characteristic, index)
    requires n == m[a := m[a].(characteristic := FlipMark(m[a].characteristic))]
    requires Marks(n, o, index, Edges(m[a]))
    ensures Marks(m, o, index, [a])
  {
    hide Edges, Reaches;
    assert OnlyMarks(m, n, index);
    ComposeOnly(m, n, o, index);
    MarksKeepGraph(m, n, index);
    hide OnlyMarks;
    OnlyMarksFacts(m, n, index, a);
    OnlyMarksFacts(n, o, index, a);
    forall x | Changed(m, o, x) ensures AllSettled(o, index, Edges(m[x])) && Reachable(m, [a], x) {
      OnlyMarksFacts(m, n, index, x);
      if x == a {
        ReachesSelf(m, a);
        assert a in [a];
      } else {
        assert Changed(n, o, x);
        var r :| r in Edges(m[a]) && r != 0 && Reaches(n, r, x);
        ReachesSameGraph(m, n, r, x);
        assert Follows(m, a, r);
        ReachesStep(m, a, r, x);
        assert a in [a];
      }
    }
  }

  lemma FlipShrinks(m: Memory, n: Memory, index: MarkIndex, s: set<Addr>, a: Addr)
    requires a in m && a in s && TryGetHeader(m[a].characteristic, index)
    requires n == m[a := m[a].(characteristic := FlipMark(m[a].characteristic))]
    ensures OnlyMarks(m, n, index)
    ensures |Unmarked(n, index, s)| < |Unmarked(m, index, s)|
  {
    hide Edges;
    assert a in Unmarked(m, index, s) && a !in Unmarked(n, index, s);
    forall x | x in Unmarked(n, index, s) ensures x in Unmarked(m, index, s) - {a} {
    }
    SubsetCardinality(Unmarked(n, index, s), Unmarked(m, index, s) - {a});
  }

  /** What the recursion needs: a closed set of valid objects and a bound on those still unmarked. */
  ghost predicate CanMark(m: Memory, index: MarkIndex, s: set<Addr>, n: nat) {
    ClosedSet(m, s) && |Unmarked(m, index, s)| <= n
  }

  lemma CanStillMark(m: Memory, o: Memory, index: MarkIndex, s: set<Addr>, n: nat)
    requires CanMark(m, index, s, n) && OnlyMarks(m, o, index)
    ensures CanMark(o, index, s, n)
  {
    ClosedStays(m, o, index, s);
    UnmarkedShrinks(m, o, index, s);
  }

  /** One more stretch of references: what was marked before and what is marked now add up. */
  lemma MarksExtend(m: Memory, n: Memory, o: Memory, index: MarkIndex, done: seq<Addr>, found: seq<Addr>,
                    s: set<Addr>, k: nat)
    requires Marks(m, n, index, done) && Marks(n, o, index, found) && CanMark(n, index, s, k)
    ensures Marks(m, o, index, done + found) && CanMark(o, index, s, k)
  {
    hide Marks, OnlyMarks;
    MarksCompose(m, n, o, index, done, found);
    assert OnlyMarks(n, o, index) by { MarksGiveOnly(n, o, index, found); }
    CanStillMark(n, o, index, s, k);
  }

  /** References within a longer valid list are valid. */
  lemma PartValid(s: set<Addr>, all: seq<Addr>, done: seq<Addr>, found: seq<Addr>, rest: seq<Addr>)
    requires ValidRefs(s, all) && all == done + (found + rest)
    ensures ValidRefs(s, found)
  {
    forall i | 0 <= i < |found| ensures found[i] in all {
      assert all[|done| + i] == found[i];
    }
  }

  lemma TrackingSplit(frames: seq<Tracking>, i: nat)
    requires i < |frames|
    ensures TrackingReferences(frames[i..]) ==
            frames[i].references + (DescriptorReferences(frames[i].values) + TrackingReferences(frames[i + 1..]))
  {
    assert frames[i..][1..] == frames[i + 1..];
  }

  lemma ReferencesSplit(slots: Slots, t: RuntimeType, i: nat, offset: nat, found: seq<Addr>)
    requires i < |t.markTargets|
    requires found == (match t.markTargets[i]
                       case ReferenceField(o) => [Load(slots, o + offset)]
                       case ValueField(u, o) => References(slots, u, 0, o + offset))
    ensures References(slots, t, i, offset) == found + References(slots, t, i + 1, offset)
  {
  }

  lemma {:induction false} NoMoreReferences(slots: Slots, t: RuntimeType, i: nat, offset: nat, all: seq<Addr>, done: seq<Addr>)
    requires i >= |t.markTargets| && all == done + References(slots, t, i, offset)
    ensures done == all
  {
  }

  lemma NoMoreTracking(frames: seq<Tracking>, all: seq<Addr>, done: seq<Addr>)
    requires all == done + TrackingReferences(frames[|frames|..])
    ensures done == all
  {
  }

  lemma Concatenated(all: seq<Addr>, done: seq<Addr>, found: seq<Addr>, rest: seq<Addr>)
    requires all == done + (found + rest)
    ensures all == (done + found) + rest
  {
  }

  /** The C heap: memory, the list of headers and the meaning of the mark bit. */
  class Heap {
    var memory: Memory
    var pBeginHeader: Addr
    var collectionMarkIndex: MarkIndex
    var pendingRemains: nat

    constructor ()
      ensures memory == map[] && pBeginHeader == 0 && collectionMarkIndex == 0 && pendingRemains == 0
    {
      memory, pBeginHeader, collectionMarkIndex, pendingRemains := map[], 0, 0, 0;
    }

    /** Flips the mark of one object and goes on with its references. */
    method MarkObjRef(a: Addr, ghost s: set<Addr>, ghost n: nat)
      requires CanMark(memory, collectionMarkIndex, s, n) && a in s && a != 0 && a in memory
      requires TryGetHeader(memory[a].characteristic, collectionMarkIndex)
      modifies `memory
      ensures Marks(old(memory), memory, collectionMarkIndex, [a])
      decreases n, 0
    {
      hide Marks, OnlyMarks, ClosedSet;
      var header := memory[a];
      memory := memory[a := header.(characteristic := FlipMark(header.characteristic))];
      ghost var flipped := memory;
      FlipShrinks(old(memory), memory, collectionMarkIndex, s, a);
      EdgesInClosed(old(memory), s, a, collectionMarkIndex);
      ClosedStays(old(memory), memory, collectionMarkIndex, s);
      match header.body {
        case Plain(slots) =>
          MarkRecursive(slots, header.runtimeType, if header.runtimeType.isValue then SIZE_OF_VALUE_TYPE else 0, s, n - 1);
        case Delegate(targets) => MarkReferences(targets, s, n - 1);
        case ReferenceArray(items) => MarkReferences(items, s, n - 1);
        case ValueArray(t, elements) => MarkElements(t, elements, s, n - 1);
        case Thread(start, parameter, anchor, frames) => MarkThread(start, parameter, anchor, frames, s, n - 1);
      }
      MarksObject(old(memory), flipped, memory, collectionMarkIndex, a);
    }

    /** A reference found somewhere: skipped when null, const or marked. */
    method TryMark(a: Addr, ghost s: set<Addr>, ghost n: nat)
      requires CanMark(memory, collectionMarkIndex, s, n) && (a != 0 ==> a in s)
      modifies `memory
      ensures Marks(old(memory), memory, collectionMarkIndex, [a])
      decreases n, 1
    {
      hide Marks;
      if a == 0 {
        MarksNothing(memory, collectionMarkIndex, [a]);
        return;
      }
      if TryGetHeader(memory[a].characteristic, collectionMarkIndex) {
        MarkObjRef(a, s, n);
      } else {
        MarksNothing(memory, collectionMarkIndex, [a]);
      }
    }

    method MarkReferences(refs: seq<Addr>, ghost s: set<Addr>, ghost n: nat)
      requires CanMark(memory, collectionMarkIndex, s, n) && ValidRefs(s, refs)
      modifies `memory
      ensures Marks(old(memory), memory, collectionMarkIndex, refs)
      decreases n, 2
    {
      hide Marks, CanMark;
      var index := 0;
      MarksNothing(memory, collectionMarkIndex, []);
      while index < |refs|
        invariant 0 <= index <= |refs| && CanMark(memory, collectionMarkIndex, s, n)
        invariant Marks(old(memory), memory, collectionMarkIndex, refs[..index])
      {
        ghost var before := memory;
        TryMark(refs[index], s, n);
        MarksExtend(old(memory), before, memory, collectionMarkIndex, refs[..index], [refs[index]], s, n);
        assert refs[..index] + [refs[index]] == refs[..index + 1];
        index := index + 1;
      }
      assert refs[..index] == refs;
    }

    /** Walks the mark targets of a type over raw memory; nested values are walked in place. */
    method MarkRecursive(slots: Slots, t: RuntimeType, offset: nat, ghost s: set<Addr>, ghost n: nat)
      requires CanMark(memory, collectionMarkIndex, s, n) && ValidRefs(s, References(slots, t, 0, offset))
      modifies `memory
      ensures Marks(old(memory), memory, collectionMarkIndex, References(slots, t, 0, offset))
      decreases n, 2, t
    {
      hide Marks, CanMark, ValidRefs, References;
      var index := 0;
      ghost var done: seq<Addr> := [];
      ghost var all := References(slots, t, 0, offset);
      MarksNothing(memory, collectionMarkIndex, []);
      while index < |t.markTargets|
        invariant 0 <= index <= |t.markTargets| && CanMark(memory, collectionMarkIndex, s, n)
        invariant all == done + References(slots, t, index, offset)
        invariant Marks(old(memory), memory, collectionMarkIndex, done)
      {
        ghost var before := memory;
        ghost var found: seq<Addr>;
        match t.markTargets[index] {
          case ReferenceField(o) =>
            found := [Load(slots, o + offset)];
            ReferencesSplit(slots, t, index, offset, found);
            PartValid(s, all, done, found, References(slots, t, index + 1, offset));
            assert found[0] in found;
            TryMark(Load(slots, o + offset), s, n);
          case ValueField(u, o) =>
            found := References(slots, u, 0, o + offset);
            ReferencesSplit(slots, t, index, offset, found);
            PartValid(s, all, done, found, References(slots, t, index + 1, offset));
            MarkRecursive(slots, u, o + offset, s, n);
        }
        Concatenated(all, done, found, References(slots, t, index + 1, offset));
        MarksExtend(old(memory), before, memory, collectionMarkIndex, done, found, s, n);
        done := done + found;
        index := index + 1;
      }
      NoMoreReferences(slots, t, index, offset, all, done);
    }

    /** Array of values: every element is walked. */
    method MarkElements(t: RuntimeType, elements: seq<Slots>, ghost s: set<Addr>, ghost n: nat)
      requires CanMark(memory, collectionMarkIndex, s, n) && ValidRefs(s, ElementReferences(t, elements))
      modifies `memory
      ensures Marks(old(memory), memory, collectionMarkIndex, ElementReferences(t, elements))
      decreases n, 3
    {
      hide Marks, CanMark, ValidRefs;
      var index := 0;
      ghost var done: seq<Addr> := [];
      ghost var all := ElementReferences(t, elements);
      MarksNothing(memory, collectionMarkIndex, []);
      assert elements[0..] == elements;
      while index < |elements|
        invariant 0 <= index <= |elements| && CanMark(memory, collectionMarkIndex, s, n)
        invariant all == done + ElementReferences(t, elements[index..])
        invariant Marks(old(memory), memory, collectionMarkIndex, done)
      {
        ghost var before := memory;
        ghost var found := References(elements[index], t, 0, 0);
        assert elements[index..][1..] == elements[index + 1..];
        PartValid(s, all, done, found, ElementReferences(t, elements[index + 1..]));
        MarkRecursive(elements[index], t, 0, s, n);
        MarksExtend(old(memory), before, memory, collectionMarkIndex, done, found, s, n);
        done := done + found;
        index := index + 1;
      }
      assert done == all;
    }

    /** Value-type locals of a frame. */
    method MarkDescriptors(values: seq<ValueDescriptor>, ghost s: set<Addr>, ghost n: nat)
      requires CanMark(memory, collectionMarkIndex, s, n) && ValidRefs(s, DescriptorReferences(values))
      modifies `memory
      ensures Marks(old(memory), memory, collectionMarkIndex, DescriptorReferences(values))
      decreases n, 3
    {
      hide Marks, CanMark, ValidRefs;
      var index := 0;
      ghost var done: seq<Addr> := [];
      ghost var all := DescriptorReferences(values);
      MarksNothing(memory, collectionMarkIndex, []);
      assert values[0..] == values;
      while index < |values|
        invariant 0 <= index <= |values| && CanMark(memory, collectionMarkIndex, s, n)
        invariant all == done + DescriptorReferences(values[index..])
        invariant Marks(old(memory), memory, collectionMarkIndex, done)
      {
        ghost var before := memory;
        ghost var found := References(values[index].slots, values[index].valueType, 0, 0);
        assert values[index..][1..] == values[index + 1..];
        PartValid(s, all, done, found, DescriptorReferences(values[index + 1..]));
        MarkRecursive(values[index].slots, values[index].valueType, 0, s, n);
        MarksExtend(old(memory), before, memory, collectionMarkIndex, done, found, s, n);
        done := done + found;
        index := index + 1;
      }
      assert done == all;
    }

    /** il2c_step2_mark_gcmark__: a chain of execution frames or static field blocks. */
    method MarkTracking(frames: seq<Tracking>, ghost s: set<Addr>, ghost n: nat)
      requires CanMark(memory, collectionMarkIndex, s, n) && ValidRefs(s, TrackingReferences(frames))
      modifies `memory
      ensures Marks(old(memory), memory, collectionMarkIndex, TrackingReferences(frames))
      decreases n, 4
    {
      hide Marks, CanMark, ValidRefs, DescriptorReferences, TrackingReferences;
      var index := 0;
      ghost var done: seq<Addr> := [];
      ghost var all := TrackingReferences(frames);
      MarksNothing(memory, collectionMarkIndex, []);
      assert frames[0..] == frames;
      assert all == [] + TrackingReferences(frames[0..]);
      while index < |frames|
        invariant 0 <= index <= |frames| && CanMark(memory, collectionMarkIndex, s, n)
        invariant all == done + TrackingReferences(frames[index..])
        invariant Marks(old(memory), memory, collectionMarkIndex, done)
      {
        ghost var before := memory;
        var frame := frames[index];
        ghost var refs, found := frame.references, DescriptorReferences(frame.values);
        ghost var rest := TrackingReferences(frames[index + 1..]);
        TrackingSplit(frames, index);
        PartValid(s, all, done, refs, found + rest);
        Concatenated(all, done, refs, found + rest);
        PartValid(s, all, done + refs, found, rest);
        Concatenated(all, done + refs, found, rest);
        MarkReferences(frame.references, s, n);
        MarksExtend(old(memory), before, memory, collectionMarkIndex, done, refs, s, n);
        ghost var middle := memory;
        MarkDescriptors(frame.values, s, n);
        MarksExtend(old(memory), middle, memory, collectionMarkIndex, done + refs, found, s, n);
        done := done + refs + found;
        index := index + 1;
      }
      NoMoreTracking(frames, all, done);
    }

    /** The thread's own handler: start and parameter, the temporary anchor, then every execution frame. */
    method MarkThread(start: Addr, parameter: Addr, anchor: Addr, frames: seq<Tracking>, ghost s: set<Addr>, ghost n: nat)
      requires CanMark(memory, collectionMarkIndex, s, n)
      requires ValidRefs(s, ThreadReferences(start, parameter, anchor, frames))
      modifies `memory
      ensures Marks(old(memory), memory, collectionMarkIndex, ThreadReferences(start, parameter, anchor, frames))
      decreases n, 5
    {
      hide Marks, CanMark, ValidRefs;
      ghost var first := (if start != 0 then [start, parameter] else []) + [anchor];
      ghost var rest := TrackingReferences(frames);
      assert ThreadReferences(start, parameter, anchor, frames) == first + rest;
      PartValid(s, first + rest, [], first, rest);
      PartValid(s, first + rest, first, rest, []);
      if start != 0 {
        assert first == [start, parameter, anchor];
        MarkReferences([start, parameter, anchor], s, n);
      } else {
        assert first == [anchor];
        MarkReferences([anchor], s, n);
      }
      ghost var middle := memory;
      MarksNothing(old(memory), collectionMarkIndex, []);
      MarksExtend(old(memory), old(memory), memory, collectionMarkIndex, [], first, s, n);
      MarkTracking(frames, s, n);
      assert [] + first == first;
      MarksExtend(old(memory), middle, memory, collectionMarkIndex, first, rest, s, n);
    }
  }

  lemma MarksGiveOnly(m: Memory, n: Memory, index: MarkIndex, refs: seq<Addr>)
    requires Marks(m, n, index, refs)
    ensures OnlyMarks(m, n, index)
  {
  }

  lemma EdgesInClosed(m: Memory, s: set<Addr>, a: Addr, index: MarkIndex)
    requires ClosedSet(m, s) && a in s && a in m && TryGetHeader(m[a].characteristic, index)
    ensures ValidRefs(s, Edges(m[a]))
  {
  }
}
