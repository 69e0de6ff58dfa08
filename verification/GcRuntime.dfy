/** The runtime as one mutator drives it: allocation, stores, execution frames, root references and
    collections (IL2C.Runtime/src/Core/il2c_gc.c, IL2C.Runtime/src/Core/il2c_allocator.c). */
module GcRuntime {
  import opened RefHeaders
  import opened GcMark
  import opened GcSweep
  import opened GcCollect
  import opened RootReferences
  import opened GcStores
  import opened GcLoads
  import opened GcAnchor

  lemma FlipTwice(i: MarkIndex)
    ensures FlipIndex(FlipIndex(i)) == i
  {
  }

  lemma CanMarkAll(m: Memory, index: MarkIndex, s: set<Addr>)
    requires ClosedSet(m, s)
    ensures CanMark(m, index, s, |Unmarked(m, index, s)|)
  {
  }

  lemma ChainBeforeSweep(m: Memory, k: Memory, index: MarkIndex, begin: Addr, listed: seq<Addr>, roots: seq<Addr>)
    requires Consistent(m, begin, FlipIndex(index), listed, roots) && Marks(m, k, index, roots)
    ensures Chain(k, begin, listed)
  {
    hide Chain, Marks, Parity, Safe;
    MarksGiveOnly(m, k, index, roots);
    ChainSurvivesMarking(m, k, index, begin, listed);
  }

  lemma ConsistentParts(m: Memory, begin: Addr, index: MarkIndex, listed: seq<Addr>, roots: seq<Addr>)
    requires Consistent(m, begin, index, listed, roots)
    ensures Parity(m, index, listed) && Safe(m, roots) && 0 !in m
  {
  }

  lemma ThreadMarked(m: Memory, k: Memory, index: MarkIndex, roots: seq<Addr>, thread: Addr)
    requires Marks(m, k, index, roots) && IsThread(m, thread)
    ensures IsThread(k, thread) && AnchorOf(k, thread) == AnchorOf(m, thread)
  {
    hide Marks, OnlyMarks;
    MarksGiveOnly(m, k, index, roots);
    OnlyMarksFacts(m, k, index, thread);
  }

  /** Which objects await finalizers does not depend on the anchor. */
  lemma FinalizingAnchored(m: Memory, n: Memory, thread: Addr, a: Addr, pending: nat)
    requires IsThread(n, thread)
    ensures Finalizing(m, n, pending) <==> Finalizing(m, WithAnchor(n, thread, a), pending)
  {
    assert Awaiting(WithAnchor(n, thread, a)) == Awaiting(n);
  }

  lemma RootIsLive(m: Memory, roots: seq<Addr>, a: Addr)
    requires a in roots && a != 0 && a in m
    ensures Reachable(m, roots, a)
  {
    hide Edges;
    ReachesSelf(m, a);
  }

  lemma ThreadSurvives(m: Memory, n: Memory, roots: seq<Addr>, thread: Addr, listed: seq<Addr>)
    requires CollectedHeaders(m, n, roots, listed) && IsThread(m, thread) && thread in roots
    ensures IsThread(n, thread) && n[thread].body == m[thread].body
  {
    hide Reachable;
    RootIsLive(m, roots, thread);
  }

  lemma StartsConsistent(m: Memory, a: Addr, index: MarkIndex, roots: seq<Addr>)
    requires m.Keys == {a} && a != 0 && m[a].pNext == 0 && m[a].body == Thread(0, 0, 0, [])
    requires m[a].characteristic == NewCharacteristic(index)
    requires forall x :: x in roots ==> x == 0 || x == a
    ensures Consistent(m, a, index, [a], roots)
  {
    assert ClosedSet(m, {a}) && ValidRefs({a}, roots);
  }

  /** A step of the mutator: objects only gain references that are held, or references to new objects. */
  ghost predicate Mutation(m: Memory, n: Memory, roots: seq<Addr>, roots': seq<Addr>) {
    && (forall x :: x in m ==> x in n && IsConst(n[x].characteristic) == IsConst(m[x].characteristic))
    && (forall x, e :: x in n && e in Edges(n[x]) ==> (x in m && e in Edges(m[x])) || HeldIn(m, roots, e) || (e in n && e !in m))
    && (forall r :: r in roots' ==> HeldIn(m, roots, r) || (r in n && r !in m))
  }

  lemma MutationKeepsSafe(m: Memory, n: Memory, roots: seq<Addr>, roots': seq<Addr>)
    requires Safe(m, roots) && Mutation(m, n, roots, roots')
    ensures Safe(n, roots')
  {
    hide Edges;
    var s :| ClosedSet(m, s) && ValidRefs(s, roots);
    var live := (set a | a in s && Reachable(m, roots, a)) + (set a | a in n && a !in m);
    forall r | r in roots' && r != 0 ensures r in live {
      if HeldIn(m, roots, r) { LiveInClosed(m, s, roots, r); }
    }
    forall a | a in live ensures a in n && (!IsConst(n[a].characteristic) ==> ValidRefs(live, Edges(n[a]))) {
      if !IsConst(n[a].characteristic) {
        forall b | b in Edges(n[a]) && b != 0 ensures b in live {
          if a in m && b in Edges(m[a]) {
            var r :| r in roots && r != 0 && Reaches(m, r, a);
            assert Follows(m, a, b);
            ReachesEdge(m, r, a, b);
          } else if HeldIn(m, roots, b) {
            LiveInClosed(m, s, roots, b);
          }
        }
      }
    }
    assert ClosedSet(n, live) && ValidRefs(live, roots');
  }

  lemma LiveInClosed(m: Memory, s: set<Addr>, roots: seq<Addr>, a: Addr)
    requires ClosedSet(m, s) && ValidRefs(s, roots) && Reachable(m, roots, a)
    ensures a in s
  {
    hide Edges;
    var r :| r in roots && r != 0 && Reaches(m, r, a);
    ReachesInClosed(m, s, r, a);
  }

  /** A change of one header that keeps its links, its mark and its holdings keeps the state between collections. */
  lemma HeaderStore(m: Memory, begin: Addr, index: MarkIndex, listed: seq<Addr>, roots: seq<Addr>, a: Addr, h: Header)
    requires Consistent(m, begin, index, listed, roots) && a in m && h.pNext == m[a].pNext
    requires IsConst(h.characteristic) == IsConst(m[a].characteristic)
    requires IsInitialized(h.characteristic) == IsInitialized(m[a].characteristic)
    requires IsMarked(h.characteristic, index) == IsMarked(m[a].characteristic, index)
    requires forall e :: e in Edges(h) ==> e in Edges(m[a]) || HeldIn(m, roots, e)
    ensures Consistent(m[a := h], begin, index, listed, roots)
  {
    hide Edges, HeldIn, Safe, Mutation, Chain, Parity, IsConst, IsInitialized, IsMarked;
    RootsHeld(m, roots);
    HeaderMutates(m, roots, a, h);
    MutationKeepsSafe(m, m[a := h], roots, roots);
    HeaderKeepsChain(m, begin, listed, a, h);
    HeaderKeepsParity(m, index, listed, a, h);
  }

  lemma HeaderMutates(m: Memory, roots: seq<Addr>, a: Addr, h: Header)
    requires a in m && IsConst(h.characteristic) == IsConst(m[a].characteristic)
    requires forall e :: e in Edges(h) ==> e in Edges(m[a]) || HeldIn(m, roots, e)
    requires forall r :: r in roots ==> HeldIn(m, roots, r)
    ensures Mutation(m, m[a := h], roots, roots)
  {
    hide Edges, HeldIn, IsConst;
  }

  lemma RootsHeld(m: Memory, roots: seq<Addr>)
    requires Safe(m, roots)
    ensures forall r :: r in roots ==> HeldIn(m, roots, r)
  {
    hide Edges;
    forall r | r in roots && r != 0 ensures r in m && Reachable(m, roots, r) {
      ReachesSelf(m, r);
    }
  }

  /** Roots may change to references that are held. */
  lemma RootStore(m: Memory, begin: Addr, index: MarkIndex, listed: seq<Addr>, roots: seq<Addr>, roots': seq<Addr>)
    requires Consistent(m, begin, index, listed, roots)
    requires forall r :: r in roots' ==> HeldIn(m, roots, r)
    ensures Consistent(m, begin, index, listed, roots')
  {
    hide Edges, HeldIn, Safe;
    MutationKeepsSafe(m, m, roots, roots');
  }

  /** A new object in front of the list, with references that are held, and anchored in the thread. */
  lemma Allocated(m: Memory, begin: Addr, index: MarkIndex, listed: seq<Addr>, roots: seq<Addr>, a: Addr, h: Header,
                  thread: Addr, g: Header)
    requires Consistent(m, begin, index, listed, roots) && a != 0 && a !in m && thread in m
    requires h.pNext == begin && h.characteristic == NewCharacteristic(index)
    requires g.pNext == m[thread].pNext && g.characteristic == m[thread].characteristic
    requires forall e :: e in Edges(h) ==> HeldIn(m, roots, e)
    requires forall e :: e in Edges(g) ==> e == a || e in Edges(m[thread])
    requires forall r :: r in roots ==> HeldIn(m, roots, r)
    ensures Consistent(m[a := h][thread := g], a, index, [a] + listed, roots)
  {
    hide Edges, HeldIn, Safe, Chain, Mutation;
    AllocationMutates(m, roots, a, h, thread, g);
    MutationKeepsSafe(m, m[a := h][thread := g], roots, roots);
    ChainPush(m, begin, listed, a, h, thread, g);
    forall x ensures x in [a] + listed <==> x == a || x in listed {}
  }

  lemma AllocationMutates(m: Memory, roots: seq<Addr>, a: Addr, h: Header, thread: Addr, g: Header)
    requires a != 0 && a !in m && thread in m && IsConst(g.characteristic) == IsConst(m[thread].characteristic)
    requires forall e :: e in Edges(h) ==> HeldIn(m, roots, e)
    requires forall e :: e in Edges(g) ==> e == a || e in Edges(m[thread])
    requires forall r :: r in roots ==> HeldIn(m, roots, r)
    ensures Mutation(m, m[a := h][thread := g], roots, roots)
  {
    hide Edges, HeldIn;
  }

  lemma ChainPush(m: Memory, begin: Addr, listed: seq<Addr>, a: Addr, h: Header, thread: Addr, g: Header)
    requires Chain(m, begin, listed) && a != 0 && a !in m && thread in m
    requires h.pNext == begin && g.pNext == m[thread].pNext
    ensures Chain(m[a := h][thread := g], a, [a] + listed)
  {
    hide Segment, Distinct;
    ChainMembers(m, begin, listed);
    SegmentElsewhere(m, listed, 0, a, h);
    SameNextSegment(m[a := h], listed, thread, g);
    SegmentCons(m[a := h][thread := g], a, listed);
  }

  lemma ChainMembers(m: Memory, begin: Addr, listed: seq<Addr>)
    requires Chain(m, begin, listed)
    ensures forall x :: x in listed ==> x in m
    ensures Segment(m, listed, 0) && Distinct(listed) && begin == Head(listed, 0)
  {
  }

  lemma SameNextSegment(m: Memory, l: seq<Addr>, a: Addr, h: Header)
    requires Segment(m, l, 0) && a in m && h.pNext == m[a].pNext
    ensures Segment(m[a := h], l, 0)
  {
  }

  /** No reachable object has been freed or altered, the mutator's own thread object apart. */
  ghost predicate Preserved(m: Memory, n: Memory, roots: seq<Addr>, thread: Addr) {
    forall x :: x in m && Reachable(m, roots, x) ==>
      x in n && n[x].runtimeType == m[x].runtimeType && (x != thread ==> n[x].body == m[x].body)
  }

  lemma PreservedByCollect(m: Memory, n: Memory, roots: seq<Addr>, listed: seq<Addr>, thread: Addr, f: Finalizers)
    requires IsThread(m, thread) && Collected(m, n, thread, roots, listed, f)
    ensures Preserved(m, n, roots, thread) && NothingLost(m, n, roots)
  {
    hide Reachable, Collected;
    forall x | x in m && Reachable(m, roots, x)
      ensures x in n && n[x].runtimeType == m[x].runtimeType && (x != thread ==> n[x].body == m[x].body)
    {
      CollectedKeeps(m, n, thread, roots, listed, f, x);
    }
  }

  /** Marking, sweeping and writing the anchor back make a collection. */
  lemma {:induction false} PassIsCollection(m: Memory, k: Memory, n: Memory, thread: Addr, index: MarkIndex, f: Finalizers, listed: seq<Addr>,
                         added: seq<Addr>, roots: seq<Addr>, begin: Addr, anchor: Addr)
    requires IsThread(m, thread) && thread in roots && 0 !in m && Parity(m, FlipIndex(index), listed) && Marks(m, k, index, roots)
    requires AllIn(k, listed) && Swept(k, n, begin, index, f, listed, added) && CollectedHeaders(m, n, roots, listed)
    requires AnchorLeft(f, Pending(k, index, listed), added, AnchorOf(m, thread), anchor)
    ensures IsThread(n, thread) && (anchor == AnchorOf(n, thread) || IsNewAnchor(m, n, anchor))
    ensures Collected(m, WithAnchor(n, thread, anchor), thread, roots, listed, f)
  {
    hide Edges, Reachable, Marks, Parity, Pending, AnchorLeft, CollectedHeaders, IsConst, SweptCharacteristic, Kept, Dropped, IsNewAnchor, Chain;
    ThreadSurvives(m, n, roots, thread, listed);
    AnchorLeftMeaning(f, Pending(k, index, listed), added, AnchorOf(m, thread), anchor);
    forall a ensures a in Pending(k, index, listed) <==> IsFinalized(m, roots, listed, a) {
      PendingIsFinalized(m, k, index, listed, roots, a);
    }
    if anchor in added { AddedAnchor(m, k, n, begin, index, f, listed, added, roots, thread, anchor); }
    if anchor == 0 { NullAnchor(m, n); NullAnchor(m, WithAnchor(n, thread, 0)); }
    assert Anchored(Anchored(n[thread], anchor), AnchorOf(m, thread)) == n[thread];
    assert WithAnchor(WithAnchor(n, thread, anchor), thread, AnchorOf(m, thread)) == n;
  }

  lemma {:induction false} ListedAfter(m: Memory, k: Memory, n: Memory, begin: Addr, index: MarkIndex, f: Finalizers, listed: seq<Addr>,
                                       added: seq<Addr>, roots: seq<Addr>)
    requires AllIn(k, listed) && Swept(k, n, begin, index, f, listed, added) && Marks(m, k, index, roots)
    requires Parity(m, FlipIndex(index), listed) && 0 !in m
    ensures forall a :: a in added + Kept(k, index, listed) ==> a in listed || a !in m
    ensures |Pending(k, index, listed)| > 0 <==> exists a :: IsFinalized(m, roots, listed, a)
  {
    hide Edges, Marks, OnlyMarks, Kept, Dropped, Pending, Chain, Parity, SweptCharacteristic, IsFinalized;
    MarksGiveOnly(m, k, index, roots);
    SameKeys(m, k, index);
    KeptMembers(k, index, listed);
    if Pending(k, index, listed) != [] {
      var a := Pending(k, index, listed)[0];
      PendingIsFinalized(m, k, index, listed, roots, a);
      assert IsFinalized(m, roots, listed, a);
    }
    forall a | IsFinalized(m, roots, listed, a) ensures Pending(k, index, listed) != [] {
      PendingIsFinalized(m, k, index, listed, roots, a);
    }
  }

  lemma StaysFinalized(m: Memory, n: Memory, o: Memory, thread: Addr, roots: seq<Addr>, listed: seq<Addr>, listed': seq<Addr>, f: Finalizers,
                       anchor: Addr, a: Addr)
    requires IsThread(m, thread) && Safe(m, roots) && Collected(m, n, thread, roots, listed, f) && IsThread(o, thread)
    requires n == WithAnchor(o, thread, anchor) && IsFinalized(m, roots, listed, a)
    requires a in o && AwaitsFinalizer(o[a]) && a in listed'
    ensures IsFinalized(n, roots, listed', a)
  {
    hide Reachable, Collected, Safe;
    if Reachable(n, roots, a) { UnreachableStays(m, n, thread, roots, listed, f, a); }
  }

  lemma {:induction false} QuietAfter(m: Memory, k: Memory, n: Memory, thread: Addr, anchor: Addr, index: MarkIndex, listed: seq<Addr>, roots: seq<Addr>)
    requires AllIn(k, listed) && Marks(m, k, index, roots) && Parity(m, FlipIndex(index), listed) && 0 !in m && IsThread(n, thread)
    requires forall a :: a in n && AwaitsFinalizer(n[a]) ==> a in m && AwaitsFinalizer(m[a]) && !(a in Pending(k, index, listed))
    ensures AllFinalized(m, WithAnchor(n, thread, anchor), roots, listed)
  {
    hide Edges, Marks, Pending, Parity, Reachable;
    var o := WithAnchor(n, thread, anchor);
    forall a | a in o && AwaitsFinalizer(o[a]) && a in listed ensures a in m && Reachable(m, roots, a) {
      PendingIsFinalized(m, k, index, listed, roots, a);
    }
  }

  lemma NullAnchor(m: Memory, n: Memory)
    ensures IsNewAnchor(m, n, 0)
  {
  }

  lemma {:induction false} AddedAnchor(m: Memory, k: Memory, n: Memory, begin: Addr, index: MarkIndex, f: Finalizers, listed: seq<Addr>,
                                       added: seq<Addr>, roots: seq<Addr>, thread: Addr, anchor: Addr)
    requires AllIn(k, listed) && Swept(k, n, begin, index, f, listed, added) && Marks(m, k, index, roots)
    requires anchor in added && IsThread(m, thread) && IsThread(n, thread)
    ensures IsNewAnchor(m, n, anchor) && IsNewAnchor(m, WithAnchor(n, thread, anchor), anchor)
  {
    hide Edges, Marks, OnlyMarks, SweptCharacteristic, Kept, Dropped, Chain;
    MarksGiveOnly(m, k, index, roots);
    SameKeys(m, k, index);
    assert IsFresh(n[anchor], index, f);
    forall e | e in Edges(n[anchor]) ensures e == 0 { ClearedHoldsNothing(n[anchor], e); }
  }

  /** What the thread refers to is held. */
  lemma ThreadHolds(m: Memory, roots: seq<Addr>, thread: Addr, a: Addr)
    requires IsThread(m, thread) && thread in roots
    requires a in m && a in Edges(m[thread])
    ensures HeldIn(m, roots, a)
  {
    hide Edges;
    if a != 0 {
      ReachesSelf(m, thread);
      assert Follows(m, thread, a);
      ReachesEdge(m, thread, thread, a);
    }
  }

  /** What a held object refers to is held. */
  lemma EdgeHeld(m: Memory, roots: seq<Addr>, a: Addr, e: Addr)
    requires Safe(m, roots) && HeldIn(m, roots, a) && a in m && a != 0 && !IsConst(m[a].characteristic) && e in Edges(m[a])
    ensures HeldIn(m, roots, e)
  {
    hide Edges;
    if e != 0 {
      var s :| ClosedSet(m, s) && ValidRefs(s, roots);
      LiveInClosed(m, s, roots, a);
      var r :| r in roots && r != 0 && Reaches(m, r, a);
      assert Follows(m, a, e);
      ReachesEdge(m, r, a, e);
    }
  }

  /** What a program loads from an object it holds, it holds. */
  lemma LoadHeld(m: Memory, roots: seq<Addr>, a: Addr, p: Place)
    requires Safe(m, roots) && HeldIn(m, roots, a) && a in m && a != 0 && !IsConst(m[a].characteristic)
    requires HasPlace(m[a], p) && IsFollowed(m[a], p)
    ensures HeldIn(m, roots, LoadAt(m[a], p))
  {
    hide Edges, HasPlace, LoadAt, IsFollowed, Safe, HoldsAtPlace;
    var e := LoadAt(m[a], p);
    PlaceHolds(m[a], p);
    if e != 0 {
      EdgesAreLoads(m[a], e);
      EdgeHeld(m, roots, a, e);
    }
  }

  /** Every load from a reachable object, inherited fields apart, gives null or a reachable object. */
  ghost predicate LoadsAreHeld(m: Memory, roots: seq<Addr>) {
    forall a, p :: a in m && Reachable(m, roots, a) && !IsConst(m[a].characteristic) && HasPlace(m[a], p) && IsFollowed(m[a], p) ==>
      HeldIn(m, roots, LoadAt(m[a], p))
  }

  lemma SoundLoads(m: Memory, begin: Addr, index: MarkIndex, listed: seq<Addr>, roots: seq<Addr>)
    requires Consistent(m, begin, index, listed, roots)
    ensures LoadsAreHeld(m, roots)
  {
    hide HasPlace, LoadAt, IsFollowed, Reachable, Consistent;
    SafeGives(m, begin, index, listed, roots);
    NullIsNoObject(m, begin, index, listed, roots);
    forall a, p | a in m && Reachable(m, roots, a) && !IsConst(m[a].characteristic) && HasPlace(m[a], p) && IsFollowed(m[a], p)
      ensures HeldIn(m, roots, LoadAt(m[a], p))
    {
      LoadHeld(m, roots, a, p);
    }
  }

  /** Where a step of the mutator gets a reference from: its own thread object, static fields, registered references, and
      the places of objects named like that, inherited fields apart. The anchor and the frames are places of the thread object. */
  datatype Operand =
    | Null
    | CurrentThread
    | Static(block: nat, spot: Spot)
    | Registered(isFixed: bool, block: nat, slot: nat)
    | Member(target: Operand, place: Place)

  /** The reference leads to an object with this place, which is not one of an inherited field. */
  predicate CanLoad(m: Memory, a: Addr, p: Place)
    ensures CanLoad(m, a, p) ==> a in m && HasPlace(m[a], p)
  {
    a != 0 && a in m && !IsConst(m[a].characteristic) && HasPlace(m[a], p) && IsFollowed(m[a], p)
  }

  /** The operand does not go through an anchor. */
  predicate IsFirm(o: Operand) {
    match o
    case Member(x, p) => p != TemporaryAnchor && IsFirm(x)
    case _ => true
  }

  /** Other places of a thread do not see the anchor. */
  lemma PlacesSkipAnchor(h: Header, a: Addr, p: Place)
    requires h.body.Thread? && p != TemporaryAnchor
    ensures HasPlace(Anchored(h, a), p) <==> HasPlace(h, p)
    ensures HasPlace(h, p) ==> LoadAt(Anchored(h, a), p) == LoadAt(h, p) && (IsFollowed(Anchored(h, a), p) <==> IsFollowed(h, p))
  {
    hide HasSpot, AtSpot;
  }

  datatype Step =
    | New(t: RuntimeType)
    | NewArray(t: RuntimeType, length: nat)
    | NewValueArray(t: RuntimeType, elementType: RuntimeType, length: nat)
    | NewDelegate(t: RuntimeType, targets: seq<Operand>)
    | StoreField(target: Operand, offset: nat, value: Operand)
    | StoreItem(target: Operand, index: nat, value: Operand)
    | StoreElement(target: Operand, index: nat, offset: nat, value: Operand)
    | StoreLocal(frame: nat, index: nat, value: Operand)
    | StoreLocalValue(frame: nat, index: nat, offset: nat, value: Operand)
    | StoreStatic(block: nat, index: nat, value: Operand)
    | RegisterStatic(count: nat)
    | LinkFrame(count: nat, types: seq<RuntimeType>)
    | UnlinkFrame(value: Operand)
    | CleanupAtReturn(value: Operand)
    | RegisterRoot(value: Operand, isFixed: bool)
    | UnregisterRoot(value: Operand, isFixed: bool)
    | SuppressFinalize(value: Operand)
    | ReRegisterForFinalize(value: Operand)
    | Collection

  predicate IsStore(step: Step) { step.StoreField? || step.StoreItem? || step.StoreElement? }

  function BodyAfter(step: Step, b: Body, v: Addr): Body
    requires IsStore(step)
  {
    match step
    case StoreField(_, o, _) => FieldStored(b, o, v)
    case StoreItem(_, i, _) => ItemStored(b, i, v)
    case StoreElement(_, i, o, _) => ElementStored(b, i, o, v)
  }

  /** The place a store names. */
  function PlaceStored(step: Step): Place
    requires IsStore(step)
  {
    match step
    case StoreField(_, o, _) => Field(o)
    case StoreItem(_, i, _) => Item(i)
    case StoreElement(_, i, o, _) => Element(i, o)
  }

  function SpotStored(step: Step): Spot
    requires step.StoreLocal? || step.StoreLocalValue? || step.StoreStatic?
  {
    if step.StoreLocalValue? then ValueReference(step.index, step.offset) else Reference(step.index)
  }

  predicate IsFrameStep(step: Step) { step.StoreLocal? || step.StoreLocalValue? || step.LinkFrame? }

  predicate IsCollecting(step: Step) { IsNew(step) || step.NewDelegate? || step.UnlinkFrame? || step.Collection? }

  predicate IsRootStep(step: Step) { step.StoreStatic? || step.RegisterStatic? || step.RegisterRoot? || step.UnregisterRoot? }

  function RootOperand(step: Step): Operand {
    if step.RegisterRoot? || step.UnregisterRoot? then step.value else Null
  }

  predicate IsFinalizeStep(step: Step) { step.SuppressFinalize? || step.ReRegisterForFinalize? }

  function CharacteristicAfter(step: Step, c: bv32): bv32
    requires IsFinalizeStep(step)
  {
    if step.SuppressFinalize? then SetFinalizerCalled(c) else ClearFinalizerCalled(c)
  }

  predicate IsPlainStep(step: Step) { IsStore(step) || IsFinalizeStep(step) || step.CleanupAtReturn? || IsRootStep(step) }

  /** References that the step hands over across its collection do not come from the anchor: generated code takes them
      from an execution frame. */
  predicate IsFirmStep(step: Step) {
    match step
    case NewDelegate(_, targets) => forall i :: 0 <= i < |targets| ==> IsFirm(targets[i])
    case UnlinkFrame(value) => IsFirm(value)
    case _ => true
  }

  predicate IsNew(step: Step) { step.New? || step.NewArray? || step.NewValueArray? }

  /** The cleared body a new object gets. */
  function NewBody(step: Step): (b: Body)
    requires IsNew(step)
    ensures IsCleared(b)
  {
    match step
    case New(_) => Plain(map[])
    case NewArray(_, length) => ReferenceArray(Zeros(length))
    case NewValueArray(_, elementType, length) => ValueArray(elementType, ClearedElements(length))
  }

  /** A new array has the places its length asks for; every place of a new object reads null. */
  lemma NewBodyReads(step: Step, h: Header, p: Place)
    requires IsNew(step) && h.body == NewBody(step)
    ensures HasPlace(h, p) ==> LoadAt(h, p) == 0
    ensures match step
            case New(_) => HasPlace(h, p) ==> p.Field?
            case NewArray(_, length) => HasPlace(h, p) <==> p.Item? && p.index < length
            case NewValueArray(_, t, length) => HasPlace(h, p) <==> p.Element? && p.index < length && HasReference(t, p.offset)
  {
    hide HasReference, HasField;
    if HasPlace(h, p) { ClearedBodyReads(h, p); }
  }

  class Runtime {
    const heap: Heap
    const rootReferences: RootList
    const fixedReferences: RootList
    var thread: Addr
    var staticFields: seq<Tracking>
    ghost var listed: seq<Addr>

    /** Everything step 2 starts from. */
    ghost function Roots(): seq<Addr>
      reads this, rootReferences, fixedReferences
    {
      TrackingReferences(staticFields) + Flat(rootReferences.blocks) + Flat(fixedReferences.blocks)
    }

    ghost predicate Valid()
      reads this, heap, rootReferences, fixedReferences
    {
      && rootReferences != fixedReferences && rootReferences.Valid() && fixedReferences.Valid()
      && Consistent(heap.memory, heap.pBeginHeader, heap.collectionMarkIndex, listed, Roots())
      && IsThread(heap.memory, thread) && rootReferences.Holds(thread)
    }

    /** The thread object of the mutator, registered as a root, in an otherwise empty heap. */
    constructor (threadType: RuntimeType)
      ensures Valid() && fresh(heap) && fresh(rootReferences) && fresh(fixedReferences)
    {
      heap := new Heap();
      rootReferences := new RootList();
      fixedReferences := new RootList();
      staticFields := [];
      new;
      var a := LinkHeader(heap, threadType, Thread(0, 0, 0, []));
      thread := a;
      rootReferences.Register(a);
      listed := [a];
      FlatMember(rootReferences.blocks, a);
      forall x | x in Roots() ensures x == 0 || x == a {
        FlatMember(rootReferences.blocks, x);
        if x != 0 { assert rootReferences.Holds(x); }
      }
      StartsConsistent(heap.memory, a, heap.collectionMarkIndex, Roots());
    }

    /** il2c_collect__: nothing reachable is freed, everything else is freed or finalized, and the finalizers may have
        replaced the thread's anchor. */
    method Collect(f: Finalizers)
      requires Valid()
      modifies heap, `listed
      ensures Valid() && Roots() == old(Roots())
      ensures Collected(old(heap.memory), heap.memory, thread, Roots(), old(listed), f)
      ensures heap.collectionMarkIndex == FlipIndex(old(heap.collectionMarkIndex))
      ensures forall a :: a in listed ==> a in old(listed) || a !in old(heap.memory)
      ensures heap.pendingRemains > 0 <==> exists a :: IsFinalized(old(heap.memory), Roots(), old(listed), a)
      ensures forall a :: IsFinalized(old(heap.memory), Roots(), old(listed), a) && FinalizerOf(f, a).reRegisters ==>
                IsFinalized(heap.memory, Roots(), listed, a)
      ensures IsQuietIn(f, old(heap.memory), Roots(), old(listed)) ==>
                && Finalizing(old(heap.memory), heap.memory, heap.pendingRemains)
                && AllFinalized(old(heap.memory), heap.memory, Roots(), old(listed))
    {
      hide Consistent, Marks, Swept, Kept, Pending, Collected, CollectedHeaders, Reachable, Edges, TrackingReferences, Chain, IsFinalized, Finalizing,
           AnchorLeft, Parity, Safe, IsNewAnchor, AllFinalized;
      ghost var m, begin := heap.memory, heap.pBeginHeader;
      FlipTwice(heap.collectionMarkIndex);
      ConsistentParts(m, begin, heap.collectionMarkIndex, listed, Roots());
      ThreadIsRoot();
      heap.collectionMarkIndex := FlipIndex(heap.collectionMarkIndex);
      Step2Mark();
      ghost var k, index := heap.memory, heap.collectionMarkIndex;
      ChainBeforeSweep(m, k, index, begin, listed, Roots());
      ghost var remains, added, events;
      ThreadMarked(m, k, index, Roots(), thread);
      var anchor := heap.memory[thread].body.temporaryReferenceAnchor;
      remains, anchor, added, events := Step3Sweep(heap, f, anchor, listed);
      ghost var n, pending := heap.memory, Pending(k, index, listed);
      ConsistentAfter(m, k, n, begin, heap.pBeginHeader, index, f, listed, added, Roots());
      PassIsCollection(m, k, n, thread, index, f, listed, added, Roots(), heap.pBeginHeader, anchor);
      forall a ensures a in pending <==> IsFinalized(m, Roots(), listed, a) { PendingIsFinalized(m, k, index, listed, Roots(), a); }
      ghost var quiet := IsQuietIn(f, m, Roots(), listed);
      if quiet { QuietPass(m, k, n, heap.pBeginHeader, index, f, listed, added, Roots()); }
      listed := added + Kept(k, index, listed);
      AnchorStored(m, n, heap.pBeginHeader, index, listed, Roots(), thread, anchor);
      var body := heap.memory[thread].body;
      heap.memory := heap.memory[thread := heap.memory[thread].(body := body.(temporaryReferenceAnchor := anchor))];
      FinalizingAnchored(m, n, thread, anchor, heap.pendingRemains);
      ListedAfter(m, k, n, heap.pBeginHeader, index, f, old(listed), added, Roots());
      if quiet { QuietAfter(m, k, n, thread, anchor, index, old(listed), Roots()); }
      forall a | IsFinalized(m, Roots(), old(listed), a) && FinalizerOf(f, a).reRegisters ensures IsFinalized(heap.memory, Roots(), listed, a) {
        ReRegisteredAwaits(m, k, n, heap.pBeginHeader, index, f, old(listed), added, Roots(), a);
        StaysFinalized(m, heap.memory, n, thread, Roots(), old(listed), listed, f, anchor, a);
      }
    }

    /** Marks from static fields, root references and fixed references, in this order. */
    method Step2Mark()
      requires Safe(heap.memory, Roots())
      modifies heap`memory
      ensures Marks(old(heap.memory), heap.memory, heap.collectionMarkIndex, Roots())
    {
      hide Marks, TrackingReferences, Flat, CanMark, ValidRefs, ClosedSet;
      ghost var s :| ClosedSet(heap.memory, s) && ValidRefs(s, Roots());
      ghost var n := |Unmarked(heap.memory, heap.collectionMarkIndex, s)|;
      ghost var m, index := heap.memory, heap.collectionMarkIndex;
      ghost var a, b, c := TrackingReferences(staticFields), Flat(rootReferences.blocks), Flat(fixedReferences.blocks);
      assert Roots() == [] + (a + (b + c)) && Roots() == a + (b + c) && Roots() == (a + b) + (c + []);
      PartValid(s, Roots(), [], a, b + c);
      PartValid(s, Roots(), a, b, c);
      PartValid(s, Roots(), a + b, c, []);
      assert CanMark(m, index, s, n) by { CanMarkAll(m, index, s); }
      MarksNothing(m, index, []);
      heap.MarkTracking(staticFields, s, n);
      MarksExtend(m, m, heap.memory, index, [], a, s, n);
      assert [] + a == a;
      ghost var m1 := heap.memory;
      heap.MarkReferences(Flat(rootReferences.blocks), s, n);
      MarksExtend(m, m1, heap.memory, index, a, b, s, n);
      ghost var m2 := heap.memory;
      heap.MarkReferences(Flat(fixedReferences.blocks), s, n);
      MarksExtend(m, m2, heap.memory, index, a + b, c, s, n);
    }

    /** A reference the mutator can hold: null or reachable. */
    ghost predicate HeldNow(a: Addr)
      reads this, heap, rootReferences, fixedReferences
    {
      HeldIn(heap.memory, Roots(), a)
    }

    /** A reference that is still held after a collection with these finalizers: no finalizer that is called writes the
        anchor, or the reference is held without the anchor's help. */
    ghost predicate Survives(a: Addr, f: Finalizers)
      requires IsThread(heap.memory, thread)
      reads this, heap, rootReferences, fixedReferences
    {
      && HeldNow(a)
      && (!ReplacesAnchor(heap.memory, Roots(), listed, f) || HeldFirmly(heap.memory, Roots(), thread, a))
    }

    lemma ThreadIsRoot()
      requires rootReferences.Holds(thread)
      ensures thread in Roots()
    {
      FlatMember(rootReferences.blocks, thread);
    }

    /** Replaces the body of one object by one whose references are its own or held. */
    method StoreBody(a: Addr, b: Body)
      requires Valid() && a in heap.memory && (b.Thread? <==> heap.memory[a].body.Thread?)
      requires forall e :: e in Edges(heap.memory[a].(body := b)) ==> e in Edges(heap.memory[a]) || HeldNow(e)
      modifies heap`memory
      ensures Valid() && Roots() == old(Roots())
      ensures heap.memory == old(heap.memory)[a := old(heap.memory)[a].(body := b)]
    {
      hide Edges, HeldIn, Consistent;
      HeaderStore(heap.memory, heap.pBeginHeader, heap.collectionMarkIndex, listed, Roots(), a, heap.memory[a].(body := b));
      heap.memory := heap.memory[a := heap.memory[a].(body := b)];
    }

    /** Anchors a reference in the thread context. */
    method SetAnchor(a: Addr)
      requires Valid() && HeldNow(a)
      modifies heap`memory
      ensures Valid() && Roots() == old(Roots()) && HeldNow(a)
      ensures heap.memory == old(heap.memory)[thread := old(heap.memory)[thread].(body :=
                old(heap.memory)[thread].body.(temporaryReferenceAnchor := a))]
    {
      hide Edges, Consistent, Reachable;
      AnchorEdges(heap.memory[thread], a);
      var body := heap.memory[thread].body;
      StoreBody(thread, body.(temporaryReferenceAnchor := a));
      ThreadIsRoot();
      if a != 0 { ThreadHolds(heap.memory, Roots(), thread, a); }
    }

    /** Links a new object with held references and anchors it in the thread. */
    method LinkAndAnchor(t: RuntimeType, b: Body) returns (a: Addr)
      requires Valid() && !b.Thread?
      requires forall e :: e in Edges(Header(0, t, 0, b)) ==> HeldNow(e)
      modifies heap, `listed
      ensures Valid() && Roots() == old(Roots())
      ensures a != 0 && a !in old(heap.memory) && a in heap.memory && HeldNow(a)
      ensures heap.memory[a].body == b && heap.memory[a].runtimeType == t
      ensures heap.memory[thread].body == old(heap.memory)[thread].body.(temporaryReferenceAnchor := a) && thread != a
      ensures forall x :: x in old(heap.memory) ==> x in heap.memory && heap.memory[x].runtimeType == old(heap.memory)[x].runtimeType
      ensures forall x :: x in old(heap.memory) && x != thread ==> heap.memory[x] == old(heap.memory)[x]
    {
      hide Edges, HeldIn, Consistent, Reachable;
      ghost var k, begin := heap.memory, heap.pBeginHeader;
      SafeGives(k, begin, heap.collectionMarkIndex, listed, Roots());
      RootsHeld(k, Roots());
      a := LinkHeader(heap, t, b);
      SameEdges(Header(0, t, 0, b), heap.memory[a]);
      AnchorEdges(heap.memory[thread], a);
      var body := heap.memory[thread].body;
      heap.memory := heap.memory[thread := heap.memory[thread].(body := body.(temporaryReferenceAnchor := a))];
      Allocated(k, begin, heap.collectionMarkIndex, listed, Roots(), a, heap.memory[a], thread, heap.memory[thread]);
      listed := [a] + listed;
      ThreadIsRoot();
      ThreadHolds(heap.memory, Roots(), thread, a);
    }

    /** Collect, then link a new object and anchor it in the thread. */
    method Allocate(t: RuntimeType, b: Body, f: Finalizers) returns (a: Addr)
      requires Valid() && !b.Thread?
      requires forall e :: e in Edges(Header(0, t, 0, b)) ==> Survives(e, f)
      modifies heap, `listed
      ensures Valid() && Roots() == old(Roots())
      ensures a != 0 && a in heap.memory && HeldNow(a) && heap.memory[a].body == b && heap.memory[a].runtimeType == t
      ensures Preserved(old(heap.memory), heap.memory, old(Roots()), thread)
      ensures Frames() == old(Frames())
      ensures heap.memory[thread].body.temporaryReferenceAnchor == a && thread != a
    {
      hide Edges, HeldIn, HeldFirmly, ReplacesAnchor, Consistent, Reachable, Collected, IsQuiet, Safe;
      ghost var m := heap.memory;
      SafeGives(m, heap.pBeginHeader, heap.collectionMarkIndex, listed, Roots());
      Collect(f);
      ghost var k := heap.memory;
      forall e | e in Edges(Header(0, t, 0, b)) ensures HeldIn(k, Roots(), e) {
        HeldAfterCollect(m, k, thread, Roots(), old(listed), f, e);
      }
      PreservedByCollect(m, k, Roots(), old(listed), thread, f);
      ThreadIsRoot();
      ThreadUnchanged(m, k, thread, Roots(), old(listed), f);
      a := LinkAndAnchor(t, b);
    }

    function Resolve(o: Operand): Addr
      requires thread in heap.memory && heap.memory[thread].body.Thread?
      reads this, heap, rootReferences, fixedReferences
    {
      match o
      case Null => 0
      case CurrentThread => thread
      case Static(k, s) => if k < |staticFields| && HasSpot(staticFields[k], s) then AtSpot(staticFields[k], s) else 0
      case Registered(isFixed, k, i) =>
        var blocks := if isFixed then fixedReferences.blocks else rootReferences.blocks;
        if k < |blocks| && i < |blocks[k]| then blocks[k][i] else 0
      case Member(x, p) =>
        var a := Resolve(x);
        if CanLoad(heap.memory, a, p) then LoadAt(heap.memory[a], p) else 0
    }

    lemma StaticIsRoot(k: nat, s: Spot)
      requires k < |staticFields| && HasSpot(staticFields[k], s)
      ensures AtSpot(staticFields[k], s) in Roots()
    {
      hide HasSpot, AtSpot, TrackingReferences, HoldsAtSpot;
      SpotHolds(staticFields[k], s);
      BlocksAreLoads(staticFields, AtSpot(staticFields[k], s));
    }

    lemma RegisteredIsRoot(isFixed: bool, k: nat, i: nat)
      requires var blocks := if isFixed then fixedReferences.blocks else rootReferences.blocks; k < |blocks| && i < |blocks[k]|
      ensures (if isFixed then fixedReferences.blocks else rootReferences.blocks)[k][i] in Roots()
    {
      hide TrackingReferences, Flat;
      var blocks := if isFixed then fixedReferences.blocks else rootReferences.blocks;
      FlatMember(blocks, blocks[k][i]);
    }

    /** A reference that is named without loading from an object. */
    lemma {:induction false} BaseIsRoot(o: Operand)
      requires Valid() && !o.Member?
      ensures Resolve(o) == 0 || Resolve(o) in Roots()
    {
      hide HasSpot, AtSpot, TrackingReferences, Flat, Roots, Consistent;
      match o {
        case Null =>
        case CurrentThread => ThreadIsRoot();
        case Static(k, s) =>
          if k < |staticFields| && HasSpot(staticFields[k], s) { StaticIsRoot(k, s); }
        case Registered(isFixed, k, i) =>
          var blocks := if isFixed then fixedReferences.blocks else rootReferences.blocks;
          if k < |blocks| && i < |blocks[k]| { RegisteredIsRoot(isFixed, k, i); }
      }
    }

    /** The mutator can only name references it holds. */
    lemma {:induction false} ResolveHeld(o: Operand)
      requires Valid()
      ensures HeldNow(Resolve(o))
    {
      hide Edges, HeldIn, HasPlace, LoadAt, IsFollowed, Consistent, Roots, HasSpot, AtSpot;
      var m, roots := heap.memory, Roots();
      SafeGives(m, heap.pBeginHeader, heap.collectionMarkIndex, listed, roots);
      NullHeld(m, roots);
      if o.Member? {
        ResolveHeld(o.target);
        var a := Resolve(o.target);
        if CanLoad(m, a, o.place) { LoadHeld(m, roots, a, o.place); }
      } else {
        BaseIsRoot(o);
        RootsHeld(m, roots);
      }
    }

    /** What it names without the anchor, it holds without the anchor, so it survives every collection. */
    lemma {:induction false} FirmOperandSurvives(o: Operand, f: Finalizers)
      requires Valid() && IsFirm(o)
      ensures Survives(Resolve(o), f) && HeldFirmly(heap.memory, Roots(), thread, Resolve(o))
    {
      hide Edges, HeldIn, HasPlace, LoadAt, IsFollowed, ReplacesAnchor, Safe, Consistent, Roots, HasSpot, AtSpot;
      var m, n, roots := heap.memory, WithAnchor(heap.memory, thread, 0), Roots();
      NullHeld(n, roots);
      SafeGives(m, heap.pBeginHeader, heap.collectionMarkIndex, listed, roots);
      NullAnchor(m, m);
      AnchorKeepsSafe(m, m, roots, thread, 0);
      if o.Member? {
        FirmOperandSurvives(o.target, f);
        var a := Resolve(o.target);
        if CanLoad(m, a, o.place) {
          PlacesSkipAnchor(m[thread], 0, o.place);
          LoadHeld(n, roots, a, o.place);
        }
      } else {
        BaseIsRoot(o);
        RootsHeld(n, roots);
      }
      FirmlyHeldIsHeld(m, roots, thread, Resolve(o));
    }

    lemma RootIsNamed(r: Addr) returns (o: Operand)
      requires Valid() && r in Roots() && r != 0
      ensures Resolve(o) == r
    {
      hide TrackingReferences, Flat, Consistent, HasSpot, AtSpot;
      BlocksAreLoads(staticFields, r);
      if r in TrackingReferences(staticFields) {
        var k :| 0 <= k < |staticFields| && HoldsAtSpot(staticFields[k], r);
        var s :| HasSpot(staticFields[k], s) && AtSpot(staticFields[k], s) == r;
        o := Static(k, s);
      } else {
        var isFixed := r !in Flat(rootReferences.blocks);
        var blocks := if isFixed then fixedReferences.blocks else rootReferences.blocks;
        FlatMember(blocks, r);
        var k :| 0 <= k < |blocks| && r in blocks[k];
        var i :| 0 <= i < |blocks[k]| && blocks[k][i] == r;
        o := Registered(isFixed, k, i);
      }
    }

    lemma {:induction false} WalkIsNamed(p: seq<Addr>, k: nat) returns (o: Operand)
      requires Valid() && Walk(heap.memory, p) && p[0] in Roots() && p[0] != 0 && k < |p|
      ensures Resolve(o) == p[k]
    {
      hide Edges, Consistent, Roots, HasPlace, LoadAt, IsFollowed;
      if k == 0 {
        o := RootIsNamed(p[0]);
      } else {
        var x := WalkIsNamed(p, k - 1);
        assert Follows(heap.memory, p[k - 1], p[(k - 1) + 1]);
        NullIsNoObject(heap.memory, heap.pBeginHeader, heap.collectionMarkIndex, listed, Roots());
        EdgesAreLoads(heap.memory[p[k - 1]], p[k]);
        o := Member(x, PlaceOf(heap.memory[p[k - 1]], p[k]));
      }
    }

    /** What the collector keeps is exactly what the program can name. */
    lemma {:induction false} HeldIsNamed(a: Addr)
      requires Valid()
      ensures HeldNow(a) <==> exists o :: Resolve(o) == a
    {
      hide Consistent, Roots, Follows;
      if o :| Resolve(o) == a { ResolveHeld(o); }
      if HeldNow(a) {
        var o := Null;
        if a != 0 {
          var r :| r in Roots() && r != 0 && Reaches(heap.memory, r, a);
          var p :| Walk(heap.memory, p) && p[0] == r && p[|p| - 1] == a;
          o := WalkIsNamed(p, |p| - 1);
        }
        assert Resolve(o) == a;
      }
    }

    // -------------------------------------------------------------------------------------------
    // Stores

    method StoreField(a: Addr, o: nat, v: Addr)
      requires Valid() && a in heap.memory && HeldNow(v)
      modifies heap`memory
      ensures Valid() && Roots() == old(Roots())
      ensures heap.memory == old(heap.memory)[a := old(heap.memory)[a].(body := FieldStored(old(heap.memory)[a].body, o, v))]
    {
      hide Edges, HeldIn, Consistent;
      var h := heap.memory[a];
      forall e | e in Edges(h.(body := FieldStored(h.body, o, v))) ensures e == v || e in Edges(h) { FieldGains(h, o, v, e); }
      StoreBody(a, FieldStored(h.body, o, v));
    }

    method StoreItem(a: Addr, i: nat, v: Addr)
      requires Valid() && a in heap.memory && HeldNow(v)
      modifies heap`memory
      ensures Valid() && Roots() == old(Roots())
      ensures heap.memory == old(heap.memory)[a := old(heap.memory)[a].(body := ItemStored(old(heap.memory)[a].body, i, v))]
    {
      hide Edges, HeldIn, Consistent;
      var h := heap.memory[a];
      forall e | e in Edges(h.(body := ItemStored(h.body, i, v))) ensures e == v || e in Edges(h) { ItemGains(h, i, v, e); }
      StoreBody(a, ItemStored(h.body, i, v));
    }

    method StoreElement(a: Addr, i: nat, o: nat, v: Addr)
      requires Valid() && a in heap.memory && HeldNow(v)
      modifies heap`memory
      ensures Valid() && Roots() == old(Roots())
      ensures heap.memory ==
              old(heap.memory)[a := old(heap.memory)[a].(body := ElementStored(old(heap.memory)[a].body, i, o, v))]
    {
      hide Edges, HeldIn, Consistent;
      var h := heap.memory[a];
      forall e | e in Edges(h.(body := ElementStored(h.body, i, o, v))) ensures e == v || e in Edges(h) {
        ElementGains(h, i, o, v, e);
      }
      StoreBody(a, ElementStored(h.body, i, o, v));
    }

    /** The mutator's execution frames, innermost first. */
    function Frames(): seq<Tracking>
      requires thread in heap.memory && heap.memory[thread].body.Thread?
      reads this, heap
    {
      heap.memory[thread].body.frames
    }

    /** Replaces the frames by frames that refer to nothing else than held references. */
    method SetFrames(frames: seq<Tracking>)
      requires Valid()
      requires forall e :: e in TrackingReferences(frames) ==> e in TrackingReferences(Frames()) || HeldNow(e)
      modifies heap`memory
      ensures Valid() && Roots() == old(Roots())
      ensures heap.memory == old(heap.memory)[thread := old(heap.memory)[thread].(body :=
                old(heap.memory)[thread].body.(frames := frames))]
    {
      hide Edges, HeldIn, Consistent, TrackingReferences;
      var h := heap.memory[thread];
      ThreadEdges(h);
      forall e | e in Edges(h.(body := h.body.(frames := frames))) ensures e in Edges(h) || HeldNow(e) {
        FramesGain(h, frames, e);
      }
      StoreBody(thread, h.body.(frames := frames));
    }

    method StoreLocal(k: nat, i: nat, v: Addr)
      requires Valid() && HeldNow(v) && k < |Frames()|
      modifies heap`memory
      ensures Valid() && Roots() == old(Roots())
      ensures heap.memory == old(heap.memory)[thread := old(heap.memory)[thread].(body :=
                old(heap.memory)[thread].body.(frames := old(Frames())[k := LocalStored(old(Frames())[k], i, v)]))]
    {
      hide Edges, HeldIn, Consistent, TrackingReferences, FrameGains;
      var frames := Frames();
      var frame := LocalStored(frames[k], i, v);
      LocalGains(frames[k], i, v);
      forall e | e in TrackingReferences(frames[k := frame]) ensures e == v || e in TrackingReferences(frames) {
        StoredFrame(frames, k, frame, v, e);
      }
      SetFrames(frames[k := frame]);
    }

    method StoreLocalValue(k: nat, i: nat, o: nat, v: Addr)
      requires Valid() && HeldNow(v) && k < |Frames()|
      modifies heap`memory
      ensures Valid() && Roots() == old(Roots())
      ensures heap.memory == old(heap.memory)[thread := old(heap.memory)[thread].(body :=
                old(heap.memory)[thread].body.(frames := old(Frames())[k := ValueStored(old(Frames())[k], i, o, v)]))]
    {
      hide Edges, HeldIn, Consistent, TrackingReferences, FrameGains;
      var frames := Frames();
      var frame := ValueStored(frames[k], i, o, v);
      ValueGains(frames[k], i, o, v);
      forall e | e in TrackingReferences(frames[k := frame]) ensures e == v || e in TrackingReferences(frames) {
        StoredFrame(frames, k, frame, v, e);
      }
      SetFrames(frames[k := frame]);
    }

    // -------------------------------------------------------------------------------------------
    // Execution frames

    method LinkFrame(count: nat, types: seq<RuntimeType>)
      requires Valid()
      modifies heap`memory
      ensures Valid() && Roots() == old(Roots())
      ensures heap.memory == old(heap.memory)[thread := old(heap.memory)[thread].(body :=
                old(heap.memory)[thread].body.(frames := [ClearedTracking(count, types)] + old(Frames())))]
    {
      hide Edges, Consistent, TrackingReferences, ClearedTracking, Reachable;
      var frames := [ClearedTracking(count, types)] + Frames();
      forall e | e in TrackingReferences(frames) ensures e in TrackingReferences(Frames()) || HeldNow(e) {
        PushedFrame(Frames(), count, types, e);
      }
      SetFrames(frames);
    }

    /** Collect, hand the result over in the temporary anchor and unlink the frame: the result stays held. */
    method UnlinkFrame(result: Addr, f: Finalizers)
      requires Valid() && Survives(result, f) && Frames() != []
      modifies heap, `listed
      ensures Valid() && Roots() == old(Roots())
      ensures HeldNow(result) && heap.memory[thread].body.temporaryReferenceAnchor == result
      ensures Frames() == old(Frames())[1..]
      ensures NothingLost(old(heap.memory), heap.memory, old(Roots()))
    {
      hide Edges, HeldIn, HeldFirmly, ReplacesAnchor, Consistent, Reachable, Collected, IsQuiet, Safe, TrackingReferences;
      ghost var m := heap.memory;
      SafeGives(m, heap.pBeginHeader, heap.collectionMarkIndex, listed, Roots());
      Collect(f);
      ghost var k := heap.memory;
      HeldAfterCollect(m, k, thread, Roots(), old(listed), f, result);
      ThreadIsRoot();
      ThreadUnchanged(m, k, thread, Roots(), old(listed), f);
      PreservedByCollect(m, k, Roots(), old(listed), thread, f);
      SetAnchor(result);
      var frames := Frames()[1..];
      forall e | e in TrackingReferences(frames) ensures e in TrackingReferences(Frames()) {
        DroppedFrame(Frames(), e);
      }
      SetFrames(frames);
      ThreadEdges(heap.memory[thread]);
      if result != 0 {
        ThreadIsRoot();
        HeldNotNull(k, Roots(), result);
        ThreadHolds(heap.memory, Roots(), thread, result);
      } else {
        NullHeld(heap.memory, Roots());
      }
    }

    // -------------------------------------------------------------------------------------------
    // Static fields and root references

    method StoreStatic(k: nat, i: nat, v: Addr)
      requires Valid() && HeldNow(v) && k < |staticFields|
      modifies `staticFields
      ensures Valid()
      ensures staticFields == old(staticFields)[k := LocalStored(old(staticFields)[k], i, v)]
    {
      hide Edges, HeldIn, Consistent, TrackingReferences, FrameGains;
      ghost var m, roots := heap.memory, Roots();
      SafeGives(m, heap.pBeginHeader, heap.collectionMarkIndex, listed, roots);
      RootsHeld(m, roots);
      var block := LocalStored(staticFields[k], i, v);
      LocalGains(staticFields[k], i, v);
      forall e | e in TrackingReferences(staticFields[k := block]) ensures e == v || e in TrackingReferences(staticFields) {
        StoredFrame(staticFields, k, block, v, e);
      }
      staticFields := staticFields[k := block];
      RootStore(m, heap.pBeginHeader, heap.collectionMarkIndex, listed, roots, Roots());
    }

    method RegisterStatic(count: nat)
      requires Valid()
      modifies `staticFields
      ensures Valid()
      ensures staticFields == [ClearedTracking(count, [])] + old(staticFields)
    {
      hide Edges, HeldIn, Consistent, TrackingReferences, ClearedTracking;
      ghost var m, roots := heap.memory, Roots();
      SafeGives(m, heap.pBeginHeader, heap.collectionMarkIndex, listed, roots);
      RootsHeld(m, roots);
      NullHeld(m, roots);
      var blocks := [ClearedTracking(count, [])] + staticFields;
      forall e | e in TrackingReferences(blocks) ensures e == 0 || e in TrackingReferences(staticFields) {
        PushedFrame(staticFields, count, [], e);
      }
      staticFields := blocks;
      RootStore(m, heap.pBeginHeader, heap.collectionMarkIndex, listed, roots, Roots());
    }

    method RegisterRoot(a: Addr, isFixed: bool)
      requires Valid() && HeldNow(a) && a != 0
      modifies rootReferences, fixedReferences
      ensures Valid()
      ensures forall x :: rootReferences.Holds(x) <==> (x == a && !isFixed) || old(rootReferences.Holds(x))
      ensures forall x :: fixedReferences.Holds(x) <==> (x == a && isFixed) || old(fixedReferences.Holds(x))
    {
      hide Edges, HeldIn, Consistent, TrackingReferences, Flat, rootReferences.Holds;
      ghost var m, roots := heap.memory, Roots();
      SafeGives(m, heap.pBeginHeader, heap.collectionMarkIndex, listed, roots);
      RootsHeld(m, roots);
      NullHeld(m, roots);
      rootReferences.FlatHolds();
      fixedReferences.FlatHolds();
      if isFixed { fixedReferences.Register(a); } else { rootReferences.Register(a); }
      rootReferences.FlatHolds();
      fixedReferences.FlatHolds();
      forall r | r in Roots() ensures HeldIn(m, roots, r) {
        if r != 0 && r != a { assert r in roots; }
      }
      RootStore(m, heap.pBeginHeader, heap.collectionMarkIndex, listed, roots, Roots());
    }

    /** The mutator's own thread object stays registered while it runs. */
    method UnregisterRoot(a: Addr, isFixed: bool)
      requires Valid() && a != 0 && (isFixed || a != thread)
      modifies rootReferences, fixedReferences
      ensures Valid()
      ensures forall x :: rootReferences.Holds(x) <==> !(x == a && !isFixed) && old(rootReferences.Holds(x))
      ensures forall x :: fixedReferences.Holds(x) <==> !(x == a && isFixed) && old(fixedReferences.Holds(x))
    {
      hide Edges, HeldIn, Consistent, TrackingReferences, Flat, rootReferences.Holds;
      ghost var m, roots := heap.memory, Roots();
      SafeGives(m, heap.pBeginHeader, heap.collectionMarkIndex, listed, roots);
      RootsHeld(m, roots);
      NullHeld(m, roots);
      rootReferences.FlatHolds();
      fixedReferences.FlatHolds();
      if isFixed { fixedReferences.Unregister(a); } else { rootReferences.Unregister(a); }
      rootReferences.FlatHolds();
      fixedReferences.FlatHolds();
      forall r | r in Roots() ensures HeldIn(m, roots, r) {
        if r != 0 { assert r in roots; }
      }
      RootStore(m, heap.pBeginHeader, heap.collectionMarkIndex, listed, roots, Roots());
    }

    // -------------------------------------------------------------------------------------------
    // System.GC

    method SuppressFinalize(a: Addr)
      requires Valid() && a in heap.memory
      modifies heap`memory
      ensures Valid() && Roots() == old(Roots())
      ensures heap.memory == old(heap.memory)[a := old(heap.memory)[a].(characteristic :=
                SetFinalizerCalled(old(heap.memory)[a].characteristic))]
    {
      hide Edges, HeldIn, Consistent;
      var c := SetFinalizerCalled(heap.memory[a].characteristic);
      SameEdges(heap.memory[a], heap.memory[a].(characteristic := c));
      HeaderStore(heap.memory, heap.pBeginHeader, heap.collectionMarkIndex, listed, Roots(), a, heap.memory[a].(characteristic := c));
      heap.memory := heap.memory[a := heap.memory[a].(characteristic := c)];
    }

    method ReRegisterForFinalize(a: Addr)
      requires Valid() && a in heap.memory
      modifies heap`memory
      ensures Valid() && Roots() == old(Roots())
      ensures heap.memory == old(heap.memory)[a := old(heap.memory)[a].(characteristic :=
                ClearFinalizerCalled(old(heap.memory)[a].characteristic))]
    {
      hide Edges, HeldIn, Consistent;
      var c := ClearFinalizerCalled(heap.memory[a].characteristic);
      SameEdges(heap.memory[a], heap.memory[a].(characteristic := c));
      HeaderStore(heap.memory, heap.pBeginHeader, heap.collectionMarkIndex, listed, Roots(), a, heap.memory[a].(characteristic := c));
      heap.memory := heap.memory[a := heap.memory[a].(characteristic := c)];
    }

    // -------------------------------------------------------------------------------------------
    // Whole runs

    function ResolveAll(operands: seq<Operand>): (r: seq<Addr>)
      requires thread in heap.memory && heap.memory[thread].body.Thread?
      reads this, heap, rootReferences, fixedReferences
      ensures |r| == |operands| && forall i :: 0 <= i < |r| ==> r[i] == Resolve(operands[i])
    {
      if operands == [] then [] else [Resolve(operands[0])] + ResolveAll(operands[1..])
    }

    method AllocateCleared(t: RuntimeType, b: Body, f: Finalizers)
      requires Valid() && IsCleared(b)
      modifies heap, `listed
      ensures Valid() && Roots() == old(Roots()) && NothingLost(old(heap.memory), heap.memory, old(Roots()))
      ensures Frames() == old(Frames())
      ensures var a := heap.memory[thread].body.temporaryReferenceAnchor;
              a != 0 && a in heap.memory && heap.memory[a].body == b && heap.memory[a].runtimeType == t
    {
      hide Edges, HeldIn, Consistent, Reachable, ReplacesAnchor;
      forall e | e in Edges(Header(0, t, 0, b)) ensures Survives(e, f) {
        ClearedHoldsNothing(Header(0, t, 0, b), e);
        NullHeld(heap.memory, Roots());
        NullHeld(WithAnchor(heap.memory, thread, 0), Roots());
      }
      var a := Allocate(t, b, f);
    }

    method AllocateDelegate(t: RuntimeType, operands: seq<Operand>, f: Finalizers)
      requires Valid() && forall i :: 0 <= i < |operands| ==> Survives(Resolve(operands[i]), f)
      modifies heap, `listed
      ensures Valid() && Roots() == old(Roots()) && NothingLost(old(heap.memory), heap.memory, old(Roots()))
      ensures Frames() == old(Frames())
      ensures var a := heap.memory[thread].body.temporaryReferenceAnchor;
              a != 0 && a in heap.memory && heap.memory[a].body == Delegate(old(ResolveAll(operands))) && heap.memory[a].runtimeType == t
    {
      hide HeldIn, Consistent, Reachable, ReplacesAnchor, HeldFirmly;
      var targets := ResolveAll(operands);
      forall e | e in targets ensures Survives(e, f) {
        var i :| 0 <= i < |targets| && e == targets[i];
      }
      var a := Allocate(t, Delegate(targets), f);
    }

    /** The heap after a step that neither collects nor changes frames. */
    ghost function MemoryAfter(step: Step): Memory
      requires IsThread(heap.memory, thread) && IsPlainStep(step)
      reads this, heap, rootReferences, fixedReferences
    {
      if IsStore(step) then
        var a := Resolve(step.target);
        if a !in heap.memory then heap.memory else
        heap.memory[a := heap.memory[a].(body := BodyAfter(step, heap.memory[a].body, Resolve(step.value)))]
      else if IsFinalizeStep(step) then
        var a := Resolve(step.value);
        if a !in heap.memory then heap.memory else
        heap.memory[a := heap.memory[a].(characteristic := CharacteristicAfter(step, heap.memory[a].characteristic))]
      else if step.CleanupAtReturn? then WithAnchor(heap.memory, thread, Resolve(step.value))
      else heap.memory
    }

    /** A store into whatever the operand refers to. */
    method PerformStore(step: Step)
      requires Valid() && IsStore(step)
      modifies heap`memory
      ensures Valid() && Roots() == old(Roots()) && NothingLost(old(heap.memory), heap.memory, old(Roots()))
      ensures Frames() == old(Frames())
      ensures heap.memory == old(MemoryAfter(step))
    {
      hide Edges, HeldIn, Consistent, Reachable;
      var a := Resolve(step.target);
      var v := Resolve(step.value);
      ResolveHeld(step.target);
      ResolveHeld(step.value);
      NullIsNoObject(heap.memory, heap.pBeginHeader, heap.collectionMarkIndex, listed, Roots());
      if a == 0 { return; }
      HeldNotNull(heap.memory, Roots(), a);
      match step {
        case StoreField(_, o, _) => StoreField(a, o, v);
        case StoreItem(_, i, _) => StoreItem(a, i, v);
        case StoreElement(_, i, o, _) => StoreElement(a, i, o, v);
      }
    }

    /** The execution frames after a step. */
    function FramesAfter(step: Step): seq<Tracking>
      requires thread in heap.memory && heap.memory[thread].body.Thread?
      reads this, heap, rootReferences, fixedReferences
    {
      match step
      case StoreLocal(k, i, v) => if k < |Frames()| then Frames()[k := LocalStored(Frames()[k], i, Resolve(v))] else Frames()
      case StoreLocalValue(k, i, o, v) =>
        if k < |Frames()| then Frames()[k := ValueStored(Frames()[k], i, o, Resolve(v))] else Frames()
      case LinkFrame(count, types) => [ClearedTracking(count, types)] + Frames()
      case UnlinkFrame(_) => if Frames() == [] then [] else Frames()[1..]
      case _ => Frames()
    }

    /** The static field blocks after a step. */
    function StaticsAfter(step: Step): seq<Tracking>
      requires thread in heap.memory && heap.memory[thread].body.Thread?
      reads this, heap, rootReferences, fixedReferences
    {
      match step
      case StoreStatic(k, i, v) =>
        if k < |staticFields| then staticFields[k := LocalStored(staticFields[k], i, Resolve(v))] else staticFields
      case RegisterStatic(count) => [ClearedTracking(count, [])] + staticFields
      case _ => staticFields
    }

    /** Whether a root list of one kind holds an object after a step whose operand is a. */
    predicate HoldsAfter(step: Step, a: Addr, isFixed: bool, x: Addr, held: bool)
      reads this
    {
      if a == 0 || x != a then held else
      match step
      case RegisterRoot(_, kind) => kind == isFixed || held
      case UnregisterRoot(_, kind) => held && !(kind == isFixed && (isFixed || a != thread))
      case _ => held
    }

    /** What a program loads after a store: the stored reference from the place of the target, and everywhere else what it
        loaded before. */
    lemma {:induction false} StoreIsRead(step: Step, x: Addr, p: Place)
      requires IsThread(heap.memory, thread) && IsStore(step) && x in heap.memory
      ensures
        var m, n := heap.memory, MemoryAfter(step);
        && x in n
        && (HasPlace(n[x], p) <==> HasPlace(m[x], p))
        && (HasPlace(m[x], p) ==>
              LoadAt(n[x], p) == if x == Resolve(step.target) && p == PlaceStored(step) then Resolve(step.value) else LoadAt(m[x], p))
    {
      hide HasPlace, LoadAt, FieldStored, ItemStored, ElementStored;
      var v := Resolve(step.value);
      match step {
        case StoreField(_, o, _) => FieldReads(heap.memory[x], o, v, p);
        case StoreItem(_, i, _) => ItemReads(heap.memory[x], i, v, p);
        case StoreElement(_, i, o, _) => ElementReads(heap.memory[x], i, o, v, p);
      }
    }

    lemma {:induction false} FrameIsRead(step: Step, k: nat, s: Spot)
      requires IsThread(heap.memory, thread) && (step.StoreLocal? || step.StoreLocalValue?) && k < |Frames()|
      ensures
        var after := FramesAfter(step);
        && |after| == |Frames()|
        && (HasSpot(after[k], s) <==> HasSpot(Frames()[k], s))
        && (HasSpot(Frames()[k], s) ==>
              AtSpot(after[k], s) == if k == step.frame && s == SpotStored(step) then Resolve(step.value) else AtSpot(Frames()[k], s))
    {
      hide HasSpot, AtSpot, LocalStored, ValueStored;
      var v := Resolve(step.value);
      match step {
        case StoreLocal(_, i, _) => LocalReads(Frames()[k], i, v, s);
        case StoreLocalValue(_, i, o, _) => ValueReads(Frames()[k], i, o, v, s);
      }
    }

    lemma {:induction false} StaticIsRead(step: Step, k: nat, s: Spot)
      requires IsThread(heap.memory, thread) && step.StoreStatic? && k < |staticFields|
      ensures
        var after := StaticsAfter(step);
        && |after| == |staticFields|
        && (HasSpot(after[k], s) <==> HasSpot(staticFields[k], s))
        && (HasSpot(staticFields[k], s) ==>
              AtSpot(after[k], s) == if k == step.block && s == SpotStored(step) then Resolve(step.value) else AtSpot(staticFields[k], s))
    {
      hide HasSpot, AtSpot, LocalStored;
      LocalReads(staticFields[k], step.index, Resolve(step.value), s);
    }

    method PerformLocal(step: Step)
      requires Valid() && IsFrameStep(step)
      modifies heap`memory
      ensures Valid() && Roots() == old(Roots()) && NothingLost(old(heap.memory), heap.memory, old(Roots()))
      ensures Frames() == old(FramesAfter(step))
      ensures heap.memory == old(heap.memory)[thread := old(heap.memory)[thread].(body :=
                old(heap.memory)[thread].body.(frames := Frames()))]
    {
      hide Edges, HeldIn, Consistent, Reachable, LocalStored, ValueStored, ClearedTracking;
      match step {
        case StoreLocal(k, i, v) =>
          ResolveHeld(v);
          if k < |Frames()| { StoreLocal(k, i, Resolve(v)); }
        case StoreLocalValue(k, i, o, v) =>
          ResolveHeld(v);
          if k < |Frames()| { StoreLocalValue(k, i, o, Resolve(v)); }
        case LinkFrame(count, types) => LinkFrame(count, types);
      }
    }

    method PerformRoot(step: Step)
      requires Valid() && IsRootStep(step)
      modifies `staticFields, rootReferences, fixedReferences
      ensures Valid() && staticFields == old(StaticsAfter(step))
      ensures var a := old(Resolve(RootOperand(step)));
              && (forall x :: rootReferences.Holds(x) <==> HoldsAfter(step, a, false, x, old(rootReferences.Holds(x))))
              && (forall x :: fixedReferences.Holds(x) <==> HoldsAfter(step, a, true, x, old(fixedReferences.Holds(x))))
    {
      hide Edges, HeldIn, Consistent, Reachable, LocalStored, ClearedTracking, Flat, rootReferences.Holds;
      match step {
        case StoreStatic(k, i, v) =>
          ResolveHeld(v);
          if k < |staticFields| { StoreStatic(k, i, Resolve(v)); }
        case RegisterStatic(count) => RegisterStatic(count);
        case RegisterRoot(v, isFixed) =>
          ResolveHeld(v);
          var a := Resolve(v);
          if a != 0 { RegisterRoot(a, isFixed); }
        case UnregisterRoot(v, isFixed) =>
          var a := Resolve(v);
          if a != 0 && (isFixed || a != thread) { UnregisterRoot(a, isFixed); }
      }
    }

    method PerformFinalize(step: Step)
      requires Valid() && IsFinalizeStep(step)
      modifies heap`memory
      ensures Valid() && Roots() == old(Roots()) && NothingLost(old(heap.memory), heap.memory, old(Roots()))
      ensures Frames() == old(Frames())
      ensures heap.memory == old(MemoryAfter(step))
    {
      hide Edges, HeldIn, Consistent, Reachable;
      ResolveHeld(step.value);
      var a := Resolve(step.value);
      NullIsNoObject(heap.memory, heap.pBeginHeader, heap.collectionMarkIndex, listed, Roots());
      if a == 0 { return; }
      HeldNotNull(heap.memory, Roots(), a);
      if step.SuppressFinalize? { SuppressFinalize(a); } else { ReRegisterForFinalize(a); }
    }

    /** Operands that have to outlive the step's collection do. */
    ghost predicate CanPerform(step: Step, f: Finalizers)
      requires IsThread(heap.memory, thread)
      reads this, heap, rootReferences, fixedReferences
    {
      match step
      case NewDelegate(_, targets) => forall i :: 0 <= i < |targets| ==> Survives(Resolve(targets[i]), f)
      case UnlinkFrame(value) => Frames() == [] || Survives(Resolve(value), f)
      case _ => true
    }

    /** The steps that collect. */
    method PerformCollecting(step: Step, f: Finalizers)
      requires Valid() && CanPerform(step, f) && IsCollecting(step)
      modifies heap, `listed
      ensures Valid() && Roots() == old(Roots()) && NothingLost(old(heap.memory), heap.memory, old(Roots()))
      ensures Frames() == old(FramesAfter(step))
      ensures IsNew(step) ==> var a := heap.memory[thread].body.temporaryReferenceAnchor;
              a in heap.memory && heap.memory[a].runtimeType == step.t && heap.memory[a].body == NewBody(step)
      ensures step.NewDelegate? ==> var a := heap.memory[thread].body.temporaryReferenceAnchor;
              a in heap.memory && heap.memory[a].runtimeType == step.t && heap.memory[a].body == Delegate(old(ResolveAll(step.targets)))
      ensures step.UnlinkFrame? && old(Frames()) != [] ==>
                HeldNow(old(Resolve(step.value))) && heap.memory[thread].body.temporaryReferenceAnchor == old(Resolve(step.value))
      ensures step.Collection? ==> Collected(old(heap.memory), heap.memory, thread, Roots(), old(listed), f)
    {
      hide Edges, HeldIn, Consistent, Reachable, NewBody, Collected, ReplacesAnchor, Survives, NothingLost, TrackingReferences;
      if step.UnlinkFrame? {
        SameMemoryLosesNothing(heap.memory, Roots());
        if Frames() != [] { UnlinkFrame(Resolve(step.value), f); }
      } else if step.Collection? {
        Collect(f);
        ThreadIsRoot();
        ThreadUnchanged(old(heap.memory), heap.memory, thread, Roots(), old(listed), f);
        PreservedByCollect(old(heap.memory), heap.memory, Roots(), old(listed), thread, f);
      } else if step.NewDelegate? {
        AllocateDelegate(step.t, step.targets, f);
      } else {
        AllocateCleared(step.t, NewBody(step), f);
      }
    }

    /** The steps that change the heap. */
    method PerformHeap(step: Step, f: Finalizers)
      requires Valid() && CanPerform(step, f) && !IsRootStep(step)
      modifies heap, `listed
      ensures Valid() && Roots() == old(Roots()) && NothingLost(old(heap.memory), heap.memory, old(Roots()))
      ensures Frames() == old(FramesAfter(step))
      ensures IsNew(step) ==> var a := heap.memory[thread].body.temporaryReferenceAnchor;
              a in heap.memory && heap.memory[a].runtimeType == step.t && heap.memory[a].body == NewBody(step)
      ensures step.NewDelegate? ==> var a := heap.memory[thread].body.temporaryReferenceAnchor;
              a in heap.memory && heap.memory[a].runtimeType == step.t && heap.memory[a].body == Delegate(old(ResolveAll(step.targets)))
      ensures IsPlainStep(step) ==> heap.memory == old(MemoryAfter(step))
      ensures step.CleanupAtReturn? || (step.UnlinkFrame? && old(Frames()) != []) ==>
                && HeldNow(old(Resolve(step.value)))
                && heap.memory[thread].body.temporaryReferenceAnchor == old(Resolve(step.value))
      ensures step.Collection? ==> Collected(old(heap.memory), heap.memory, thread, Roots(), old(listed), f)
    {
      hide Edges, HeldIn, Consistent, Reachable, BodyAfter, NewBody, Collected, ReplacesAnchor, Survives, CharacteristicAfter, CanPerform,
           TrackingReferences;
      if IsCollecting(step) {
        PerformCollecting(step, f);
      } else if step.CleanupAtReturn? {
        ResolveHeld(step.value);
        SetAnchor(Resolve(step.value));
      } else if IsStore(step) {
        PerformStore(step);
      } else if IsFrameStep(step) {
        PerformLocal(step);
      } else {
        PerformFinalize(step);
      }
    }

    /** One step of the mutator. Null targets and indices out of range change nothing. */
    method Perform(step: Step, f: Finalizers)
      requires Valid() && CanPerform(step, f)
      modifies heap, `listed, `staticFields, rootReferences, fixedReferences
      ensures Valid() && NothingLost(old(heap.memory), heap.memory, old(Roots()))
      ensures Frames() == old(FramesAfter(step)) && staticFields == old(StaticsAfter(step))
      ensures var a := old(Resolve(RootOperand(step)));
              && (forall x :: rootReferences.Holds(x) <==> HoldsAfter(step, a, false, x, old(rootReferences.Holds(x))))
              && (forall x :: fixedReferences.Holds(x) <==> HoldsAfter(step, a, true, x, old(fixedReferences.Holds(x))))
      ensures IsNew(step) ==> var a := heap.memory[thread].body.temporaryReferenceAnchor;
              a in heap.memory && heap.memory[a].runtimeType == step.t && heap.memory[a].body == NewBody(step)
      ensures step.NewDelegate? ==> var a := heap.memory[thread].body.temporaryReferenceAnchor;
              a in heap.memory && heap.memory[a].runtimeType == step.t && heap.memory[a].body == Delegate(old(ResolveAll(step.targets)))
      ensures IsPlainStep(step) ==> heap.memory == old(MemoryAfter(step))
      ensures step.CleanupAtReturn? || (step.UnlinkFrame? && old(Frames()) != []) ==>
                && HeldNow(old(Resolve(step.value)))
                && heap.memory[thread].body.temporaryReferenceAnchor == old(Resolve(step.value))
      ensures step.Collection? ==> Collected(old(heap.memory), heap.memory, thread, Roots(), old(listed), f)
    {
      hide Edges, HeldIn, Consistent, Reachable, BodyAfter, NewBody, Collected, ReplacesAnchor, Survives, CharacteristicAfter, CanPerform,
           TrackingReferences, rootReferences.Holds, Flat;
      if IsRootStep(step) {
        PerformRoot(step);
      } else {
        PerformHeap(step, f);
      }
    }

    ghost function Now(): Snapshot
      reads this, heap, rootReferences, fixedReferences
    {
      Snapshot(heap.memory, heap.pBeginHeader, heap.collectionMarkIndex, listed, Roots())
    }

    lemma FirmStepCanPerform(step: Step, f: Finalizers)
      requires Valid() && IsFirmStep(step)
      ensures CanPerform(step, f)
    {
      hide Survives;
      match step {
        case NewDelegate(_, targets) =>
          forall i | 0 <= i < |targets| ensures Survives(Resolve(targets[i]), f) { FirmOperandSurvives(targets[i], f); }
        case UnlinkFrame(value) => FirmOperandSurvives(value, f);
        case _ =>
      }
    }

    /** Heap safety of every run: between all steps the heap is sound, and no step frees what was reachable before it. */
    method Run(steps: seq<Step>, finalizers: seq<Finalizers>) returns (ghost trace: seq<Snapshot>)
      requires Valid() && |finalizers| == |steps| && forall i :: 0 <= i < |steps| ==> IsFirmStep(steps[i])
      modifies heap, `listed, `staticFields, rootReferences, fixedReferences
      ensures Valid()
      ensures |trace| == |steps| + 1 && trace[0] == old(Now()) && trace[|steps|] == Now()
      ensures forall i :: 0 <= i < |trace| ==> trace[i].IsSound() && LoadsAreHeld(trace[i].memory, trace[i].roots)
      ensures forall i :: 0 <= i < |steps| ==> NothingLostAt(trace, i)
    {
      hide Consistent, NothingLost, Roots, Flat, CanPerform;
      trace := [Now()];
      var n := 0;
      while n < |steps|
        invariant 0 <= n <= |steps| && Valid()
        invariant |trace| == n + 1 && trace[0] == old(Now()) && trace[n] == Now()
        invariant forall i :: 0 <= i < |trace| ==> trace[i].IsSound()
        invariant forall i :: 0 <= i < n ==> NothingLostAt(trace, i)
      {
        ghost var before := trace;
        FirmStepCanPerform(steps[n], finalizers[n]);
        Perform(steps[n], finalizers[n]);
        trace := trace + [Now()];
        n := n + 1;
        forall i | 0 <= i < n ensures NothingLostAt(trace, i) {
          if i < n - 1 { assert NothingLostAt(before, i); }
        }
      }
      forall i | 0 <= i < |trace| ensures LoadsAreHeld(trace[i].memory, trace[i].roots) {
        assert trace[i].IsSound();
        SoundLoads(trace[i].memory, trace[i].begin, trace[i].index, trace[i].listed, trace[i].roots);
      }
    }
  }

  /** The heap and its roots at one moment. */
  datatype Snapshot = Snapshot(memory: Memory, begin: Addr, index: MarkIndex, listed: seq<Addr>, roots: seq<Addr>) {
    ghost predicate IsSound() { Consistent(memory, begin, index, listed, roots) }
  }

  ghost predicate NothingLostAt(trace: seq<Snapshot>, i: nat)
    requires i + 1 < |trace|
  {
    NothingLost(trace[i].memory, trace[i + 1].memory, trace[i].roots)
  }

  /** A collection may replace the thread's anchor, and nothing else of the thread. */
  lemma ThreadUnchanged(m: Memory, n: Memory, thread: Addr, roots: seq<Addr>, listed: seq<Addr>, f: Finalizers)
    requires IsThread(m, thread) && Collected(m, n, thread, roots, listed, f) && thread in roots
    ensures thread in n && n[thread].body == m[thread].body.(temporaryReferenceAnchor := AnchorOf(n, thread))
  {
    hide Reachable, Collected;
    RootIsLive(m, roots, thread);
    CollectedKeeps(m, n, thread, roots, listed, f, thread);
  }

  /** No step may free anything the mutator could still reach. */
  ghost predicate NothingLost(m: Memory, n: Memory, roots: seq<Addr>) {
    forall x :: x in m && Reachable(m, roots, x) ==> x in n && n[x].runtimeType == m[x].runtimeType
  }

  lemma SameMemoryLosesNothing(m: Memory, roots: seq<Addr>)
    ensures NothingLost(m, m, roots)
  {
  }

  lemma NullIsNoObject(m: Memory, begin: Addr, index: MarkIndex, listed: seq<Addr>, roots: seq<Addr>)
    requires Consistent(m, begin, index, listed, roots)
    ensures 0 !in m
  {
  }

  lemma HeldNotNull(m: Memory, roots: seq<Addr>, a: Addr)
    requires HeldIn(m, roots, a) && a != 0
    ensures a in m
  {
  }

  lemma NullHeld(m: Memory, roots: seq<Addr>)
    ensures HeldIn(m, roots, 0)
  {
  }

  lemma ThreadEdges(h: Header)
    requires h.body.Thread?
    ensures h.body.temporaryReferenceAnchor in Edges(h)
    ensures forall e :: e in TrackingReferences(h.body.frames) ==> e in Edges(h)
  {
    AnchorEdges(h, h.body.temporaryReferenceAnchor);
    assert h.(body := h.body.(temporaryReferenceAnchor := h.body.temporaryReferenceAnchor)) == h;
  }
}
