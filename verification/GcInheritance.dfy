/** Inherited reference fields: type information lists only the fields that a type declares itself
    (IL2C.Core/Writers/TypeHelperWriter.cs), so the collector does not follow the others. */
module GcInheritance {
  import opened Wrappers
  import opened RefHeaders
  import opened GcMark
  import opened GcSweep
  import opened GcCollect
  import opened GcAnchor
  import opened GcLoads
  import opened GcRuntime

  /** No base type adds a reference field. */
  ghost predicate DeclaresAll(t: RuntimeType) {
    forall o: nat :: HasField(t, o) ==> HasReference(t, o)
  }

  /** Whatever an object of the type holds, the collector follows every place a program can load from. */
  ghost predicate FollowsAll(t: RuntimeType) {
    forall h: Header, p :: h.runtimeType == t && HasPlace(h, p) && LoadAt(h, p) != 0 ==> LoadAt(h, p) in Edges(h)
  }

  function StartOf(t: RuntimeType): nat { if t.isValue then SIZE_OF_VALUE_TYPE else 0 }

  /** An object that holds a reference at one offset and nothing else. */
  function Single(t: RuntimeType, o: nat, v: Addr): Header {
    Header(0, t, 0, Plain(map[o + StartOf(t) := v]))
  }

  lemma {:induction false} SinglePlace(t: RuntimeType, o: nat)
    requires HasField(t, o) && FollowsAll(t)
    ensures HasReference(t, o)
  {
    hide HasReference, HasField, Edges;
    var h := Single(t, o, 1);
    var p := Field(o + StartOf(t));
    assert o + StartOf(t) - StartOf(t) == o;
    assert HasPlace(h, p) && LoadAt(h, p) == 1;
    EdgesAreLoads(h, 1);
    var q := PlaceOf(h, 1);
    assert q.offset == p.offset;
  }

  lemma DeclaredIsFollowed(h: Header, p: Place)
    requires DeclaresAll(h.runtimeType) && HasPlace(h, p)
    ensures IsFollowed(h, p)
  {
    hide HasReference, HasField;
  }

  /** The collector follows all references of all objects of a type if and only if no base type adds a reference field. */
  lemma FollowsAllMeaning(t: RuntimeType)
    ensures FollowsAll(t) <==> DeclaresAll(t)
  {
    hide HasReference, HasField, Edges;
    if FollowsAll(t) {
      forall o: nat | HasField(t, o) ensures HasReference(t, o) { SinglePlace(t, o); }
    }
    if DeclaresAll(t) {
      forall h: Header, p | h.runtimeType == t && HasPlace(h, p) && LoadAt(h, p) != 0 ensures LoadAt(h, p) in Edges(h) {
        DeclaredIsFollowed(h, p);
        PlaceHolds(h, p);
        EdgesAreLoads(h, LoadAt(h, p));
      }
    }
  }

  /** So between the steps of every run, all loads from a reachable object of such a type are safe. */
  lemma DeclaredLoadHeld(s: Snapshot, a: Addr, p: Place)
    requires s.IsSound() && a in s.memory && Reachable(s.memory, s.roots, a) && !IsConst(s.memory[a].characteristic)
    requires DeclaresAll(s.memory[a].runtimeType) && HasPlace(s.memory[a], p)
    ensures HeldIn(s.memory, s.roots, LoadAt(s.memory[a], p))
  {
    hide Consistent, Reachable, HasPlace, LoadAt, IsFollowed, DeclaresAll;
    DeclaredIsFollowed(s.memory[a], p);
    SoundLoads(s.memory, s.begin, s.index, s.listed, s.roots);
  }

  /** What only an inherited field of a reachable object holds is freed, and the field is left dangling. */
  lemma InheritedDangles(m: Memory, n: Memory, thread: Addr, roots: seq<Addr>, listed: seq<Addr>, f: Finalizers, a: Addr, p: Place)
    requires IsThread(m, thread) && Collected(m, n, thread, roots, listed, f)
    requires a in m && a != thread && Reachable(m, roots, a) && HasPlace(m[a], p)
    requires var b := LoadAt(m[a], p); b in m && b in listed && b != thread && !Reachable(m, roots, b) && !m[b].runtimeType.hasFinalizer
    ensures a in n && HasPlace(n[a], p) && LoadAt(n[a], p) == LoadAt(m[a], p) && LoadAt(n[a], p) !in n
  {
    hide Edges, Reachable, HasPlace, LoadAt, ReplacesAnchor;
    CollectedKeeps(m, n, thread, roots, listed, f, a);
    SamePlaces(m[a], n[a], p);
  }

  lemma SamePlaces(g: Header, h: Header, p: Place)
    requires g.runtimeType == h.runtimeType && g.body == h.body
    ensures HasPlace(g, p) <==> HasPlace(h, p)
    ensures HasPlace(g, p) ==> LoadAt(g, p) == LoadAt(h, p)
  {
    hide HasReference, HasField, HasSpot, AtSpot;
  }

  /** A frame that holds an object of a derived type, whose inherited field holds another object. */
  function DerivedHeap(): Memory {
    var c := NewCharacteristic(0);
    var base := RuntimeType("Base", false, false, [ReferenceField(8)], None);
    map[1 := Header(0, RuntimeType("Thread", false, true, [], None), c, Thread(0, 0, 0, [Tracking([2], [])])),
        2 := Header(1, RuntimeType("Derived", false, false, [], Some(base)), c, Plain(map[8 := 3])),
        3 := Header(2, RuntimeType("Held", false, false, [], None), c, Plain(map[]))]
  }

  lemma DerivedHeapEdges()
    ensures var m := DerivedHeap(); Edges(m[1]) == [0, 2] && Edges(m[2]) == [] && Edges(m[3]) == []
  {
    var m := DerivedHeap();
    assert References(m[2].body.slots, m[2].runtimeType, 0, 0) == [] && References(m[3].body.slots, m[3].runtimeType, 0, 0) == [];
    assert [Tracking([2], [])][1..] == [];
  }

  lemma DerivedHeapPlace()
    ensures var h := DerivedHeap()[2]; HasPlace(h, Field(8)) && LoadAt(h, Field(8)) == 3 && !IsFollowed(h, Field(8))
  {
    var base := DerivedHeap()[2].runtimeType.baseType.value;
    assert CoversReference(base.markTargets[0], 8);
    assert HasField(base, 8);
  }

  lemma DerivedHeapIsConsistent()
    ensures Consistent(DerivedHeap(), 3, 0, [3, 2, 1], [1]) && IsThread(DerivedHeap(), 1)
  {
    hide Edges;
    var m := DerivedHeap();
    DerivedHeapEdges();
    assert ClosedSet(m, {1, 2}) && ValidRefs({1, 2}, [1]);
  }

  lemma DerivedHeapReach()
    ensures Reachable(DerivedHeap(), [1], 2) && !Reachable(DerivedHeap(), [1], 3)
  {
    hide Edges;
    var m := DerivedHeap();
    DerivedHeapEdges();
    assert 1 in [1] && Follows(m, 1, 2);
    ReachesSelf(m, 1);
    ReachesEdge(m, 1, 1, 2);
    assert !Reachable(m, [1], 3) by {
      if Reachable(m, [1], 3) { ReachesInClosed(m, {1, 2}, 1, 3); }
    }
  }

  /** In that heap, consistent as it is, a collection frees the object that the inherited field holds. */
  lemma InheritedFieldIsLost(n: Memory, f: Finalizers)
    requires IsThread(DerivedHeap(), 1) && Collected(DerivedHeap(), n, 1, [1], [3, 2, 1], f)
    ensures Consistent(DerivedHeap(), 3, 0, [3, 2, 1], [1]) && Reachable(DerivedHeap(), [1], 2)
    ensures 2 in n && HasPlace(n[2], Field(8)) && LoadAt(n[2], Field(8)) == 3 && 3 !in n
  {
    hide Edges, Reachable, Consistent, Collected, HasPlace, LoadAt;
    DerivedHeapIsConsistent();
    DerivedHeapReach();
    DerivedHeapPlace();
    InheritedDangles(DerivedHeap(), n, 1, [1], [3, 2, 1], f, 2, Field(8));
  }
}
