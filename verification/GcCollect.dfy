/** A whole collection: flip, mark from the roots, sweep; what survives and what does not
    (IL2C.Runtime/src/Core/il2c_gc.c). */
module GcCollect {
  import opened RefHeaders
  import opened GcMark
  import opened GcSweep

  /** Some closed set of valid objects holds every root: nothing reachable dangles. */
  ghost predicate Safe(m: Memory, roots: seq<Addr>) {
    exists s :: ClosedSet(m, s) && ValidRefs(s, roots)
  }

  /** Listed headers are initialized, not const and carry the current mark; all other headers are const. */
  ghost predicate Parity(m: Memory, index: MarkIndex, listed: seq<Addr>) {
    && (forall a :: a in listed && a in m ==>
          IsInitialized(m[a].characteristic) && !IsConst(m[a].characteristic) && IsMarked(m[a].characteristic, index))
    && (forall a :: a in m && a !in listed ==> IsConst(m[a].characteristic))
  }

  /** Between collections. */
  ghost predicate Consistent(m: Memory, begin: Addr, index: MarkIndex, listed: seq<Addr>, roots: seq<Addr>) {
    Chain(m, begin, listed) && Parity(m, index, listed) && Safe(m, roots) && 0 !in m
  }

  /** Marking is exact: when nothing was marked before, exactly the reachable objects that are not const are marked. */
  lemma MarkingIsExact(m: Memory, n: Memory, index: MarkIndex, roots: seq<Addr>, a: Addr)
    requires Marks(m, n, index, roots) && 0 !in m
    requires forall x :: x in m ==> IsConst(m[x].characteristic) || !IsMarked(m[x].characteristic, index)
    requires a in m && !IsConst(m[a].characteristic)
    ensures IsMarked(n[a].characteristic, index) <==> Reachable(m, roots, a)
  {
    hide Edges;
    OnlyMarksFacts(m, n, index, a);
    if Reachable(m, roots, a) {
      var r :| r in roots && r != 0 && Reaches(m, r, a);
      var p :| Walk(m, p) && p[0] == r && p[|p| - 1] == a;
      WalkSettled(m, n, index, roots, p, |p| - 1);
      OnlyMarksFacts(m, n, index, a);
    }
  }

  /** Every object on a chain of references from a root gets settled. */
  lemma {:induction false} WalkSettled(m: Memory, n: Memory, index: MarkIndex, roots: seq<Addr>, p: seq<Addr>, k: nat)
    requires Marks(m, n, index, roots) && 0 !in m
    requires forall x :: x in m ==> IsConst(m[x].characteristic) || !IsMarked(m[x].characteristic, index)
    requires Walk(m, p) && p[0] in roots && k < |p|
    ensures Settled(n, index, p[k])
  {
    hide Edges;
    if k > 0 {
      WalkSettled(m, n, index, roots, p, k - 1);
      var a, b := p[k - 1], p[(k - 1) + 1];
      assert Follows(m, a, b);
      OnlyMarksFacts(m, n, index, a);
      assert Changed(m, n, a);
      assert AllSettled(n, index, Edges(m[a]));
    }
  }

  /** After the flip every listed header counts as unmarked. */
  lemma FlipUnmarks(m: Memory, index: MarkIndex, listed: seq<Addr>)
    requires Parity(m, index, listed)
    ensures forall x :: x in m ==> IsConst(m[x].characteristic) || !IsMarked(m[x].characteristic, FlipIndex(index))
  {
  }

  lemma ChainSurvivesMarking(m: Memory, n: Memory, index: MarkIndex, begin: Addr, listed: seq<Addr>)
    requires Chain(m, begin, listed) && OnlyMarks(m, n, index)
    ensures Chain(n, begin, listed)
  {
    hide OnlyMarks, Edges;
    SameKeys(m, n, index);
    forall i | 0 <= i < |listed| ensures listed[i] in n && n[listed[i]].pNext == m[listed[i]].pNext {
      OnlyMarksFacts(m, n, index, listed[i]);
    }
  }

  predicate AwaitsFinalizer(h: Header) {
    h.runtimeType.hasFinalizer && !IsFinalizerCalled(h.characteristic)
  }

  /** A collection: what the heap holds afterwards, the anchor of the collecting thread apart. */
  ghost predicate CollectedHeaders(m: Memory, n: Memory, roots: seq<Addr>, listed: seq<Addr>) {
    && (forall a :: a in m && Reachable(m, roots, a) ==>
          a in n && n[a].body == m[a].body && n[a].runtimeType == m[a].runtimeType)
    && (forall a :: a in m && a in listed ==>
          (a in n <==> (Reachable(m, roots, a) || AwaitsFinalizer(m[a]))))
    && (forall a :: a in m && a !in listed ==> a in n && n[a].body == m[a].body && n[a].runtimeType == m[a].runtimeType)
    && (forall a :: a in m && a in n ==> IsConst(n[a].characteristic) == IsConst(m[a].characteristic))
  }

  /** One header through marking and sweeping. */
  lemma CollectedHeader(m: Memory, k: Memory, n: Memory, begin: Addr, index: MarkIndex, f: Finalizers, listed: seq<Addr>,
                        added: seq<Addr>, roots: seq<Addr>, a: Addr)
    requires AllIn(k, listed) && Swept(k, n, begin, index, f, listed, added) && Marks(m, k, index, roots)
    requires Parity(m, FlipIndex(index), listed) && a in m && 0 !in m
    ensures a in k
    ensures a in listed ==> (a in n <==> (Reachable(m, roots, a) || AwaitsFinalizer(m[a])))
    ensures a !in listed ==> a in n
    ensures a in n ==> n[a].body == m[a].body && n[a].runtimeType == m[a].runtimeType
    ensures a in n ==> IsConst(n[a].characteristic) == IsConst(m[a].characteristic)
    ensures a in n && a in listed ==> IsInitialized(n[a].characteristic) && IsMarked(n[a].characteristic, index)
  {
    hide Edges, Reachable, Chain;
    SameKeys(m, k, index);
    OnlyMarksFacts(m, k, index, a);
    DroppedMembers(k, index, listed);
    FlipUnmarks(m, FlipIndex(index), listed);
    if a in listed {
      MarkingIsExact(m, k, index, roots, a);
    }
  }

  /** Reachability after a collection is what it was before. */
  lemma SafeAfter(m: Memory, n: Memory, roots: seq<Addr>)
    requires Safe(m, roots)
    requires forall a :: a in m && Reachable(m, roots, a) ==>
               a in n && Edges(n[a]) == Edges(m[a]) && IsConst(n[a].characteristic) == IsConst(m[a].characteristic)
    ensures Safe(n, roots)
  {
    hide Edges;
    var s :| ClosedSet(m, s) && ValidRefs(s, roots);
    var live := set a | a in s && Reachable(m, roots, a);
    forall a | a in roots && a != 0 ensures a in live {
      ReachesSelf(m, a);
    }
    forall a | a in live ensures a in n && (!IsConst(n[a].characteristic) ==> ValidRefs(live, Edges(n[a]))) {
      if !IsConst(n[a].characteristic) {
        forall b | b in Edges(n[a]) && b != 0 ensures b in live {
          var r :| r in roots && r != 0 && Reaches(m, r, a);
          assert Follows(m, a, b);
          ReachesEdge(m, r, a, b);
        }
      }
    }
    assert ClosedSet(n, live) && ValidRefs(live, roots);
  }

  lemma {:induction false} ParityAfter(m: Memory, k: Memory, n: Memory, begin: Addr, index: MarkIndex, f: Finalizers, listed: seq<Addr>,
                    added: seq<Addr>, roots: seq<Addr>)
    requires AllIn(k, listed) && Swept(k, n, begin, index, f, listed, added) && Marks(m, k, index, roots)
    requires Parity(m, FlipIndex(index), listed) && 0 !in m
    ensures Parity(n, index, added + Kept(k, index, listed)) && 0 !in n
  {
    hide Edges, Reachable, Chain, Marks, Kept, Dropped, SweptCharacteristic, IsDropped;
    assert m.Keys == k.Keys by { MarksGiveOnly(m, k, index, roots); SameKeys(m, k, index); }
    var now := added + Kept(k, index, listed);
    KeptMembers(k, index, listed);
    DroppedMembers(k, index, listed);
    forall a | a in n
      ensures a in now ==> IsInitialized(n[a].characteristic) && !IsConst(n[a].characteristic) && IsMarked(n[a].characteristic, index)
      ensures a !in now ==> IsConst(n[a].characteristic)
    {
      if a in m { CollectedHeader(m, k, n, begin, index, f, listed, added, roots, a); }
    }
  }

  lemma CollectedAll(m: Memory, k: Memory, n: Memory, begin: Addr, index: MarkIndex, f: Finalizers, listed: seq<Addr>,
                     added: seq<Addr>, roots: seq<Addr>)
    requires AllIn(k, listed) && Swept(k, n, begin, index, f, listed, added) && Marks(m, k, index, roots)
    requires Parity(m, FlipIndex(index), listed) && 0 !in m
    ensures CollectedHeaders(m, n, roots, listed)
  {
    hide Edges, Reachable, Swept, Marks, Parity;
    forall a | a in m
      ensures a in listed ==> (a in n <==> (Reachable(m, roots, a) || AwaitsFinalizer(m[a])))
      ensures a !in listed ==> a in n
      ensures a in n ==> n[a].body == m[a].body && n[a].runtimeType == m[a].runtimeType
      ensures a in n ==> IsConst(n[a].characteristic) == IsConst(m[a].characteristic)
    {
      CollectedHeader(m, k, n, begin, index, f, listed, added, roots, a);
    }
  }

  /** An object whose finalizer a collection calls. */
  ghost predicate IsFinalized(m: Memory, roots: seq<Addr>, listed: seq<Addr>, a: Addr) {
    a in m && a in listed && !Reachable(m, roots, a) && AwaitsFinalizer(m[a])
  }

  /** The sweep calls exactly the finalizers of objects that are unreachable and await theirs. */
  lemma {:induction false} PendingIsFinalized(m: Memory, k: Memory, index: MarkIndex, listed: seq<Addr>, roots: seq<Addr>, a: Addr)
    requires AllIn(k, listed) && Marks(m, k, index, roots) && Parity(m, FlipIndex(index), listed) && 0 !in m
    ensures a in Pending(k, index, listed) <==> IsFinalized(m, roots, listed, a)
  {
    hide Edges, Reachable, OnlyMarks, Pending;
    MarksGiveOnly(m, k, index, roots);
    SameKeys(m, k, index);
    PendingMembers(k, index, listed);
    if a in listed && a in m {
      OnlyMarksFacts(m, k, index, a);
      FlipUnmarks(m, FlipIndex(index), listed);
      MarkingIsExact(m, k, index, roots, a);
    }
  }

  lemma SameEdges(g: Header, h: Header)
    requires g.body == h.body && g.runtimeType == h.runtimeType
    ensures Edges(g) == Edges(h)
  {
  }

  /** The state between collections is kept by every collection. */
  lemma {:induction false} ConsistentAfter(m: Memory, k: Memory, n: Memory, begin0: Addr, begin: Addr, index: MarkIndex, f: Finalizers,
                        listed: seq<Addr>, added: seq<Addr>, roots: seq<Addr>)
    requires Consistent(m, begin0, FlipIndex(index), listed, roots) && Marks(m, k, index, roots)
    requires AllIn(k, listed) && Swept(k, n, begin, index, f, listed, added)
    ensures Consistent(n, begin, index, added + Kept(k, index, listed), roots)
    ensures CollectedHeaders(m, n, roots, listed)
  {
    hide Edges, Reachable, Marks, Kept, Dropped, SweptCharacteristic, Parity, Safe;
    ParityAfter(m, k, n, begin, index, f, listed, added, roots);
    CollectedAll(m, k, n, begin, index, f, listed, added, roots);
    forall a | a in m && Reachable(m, roots, a) ensures Edges(n[a]) == Edges(m[a]) {
      SameEdges(m[a], n[a]);
    }
    SafeAfter(m, n, roots);
  }

  /** Finalizers that allocate no objects with finalizers. */
  ghost predicate AllocatesQuietly(f: Finalizers) { forall t :: t in AllocatedTypes(f) ==> !t.hasFinalizer }

  /** Finalizers that neither re-register their object nor allocate objects with finalizers. */
  ghost predicate IsQuiet(f: Finalizers) {
    (forall a :: a in f ==> !f[a].reRegisters) && AllocatesQuietly(f)
  }

  /** A collection whose finalizers do neither. */
  ghost predicate IsQuietIn(f: Finalizers, m: Memory, roots: seq<Addr>, listed: seq<Addr>) {
    AllocatesQuietly(f) && forall a :: IsFinalized(m, roots, listed, a) ==> !FinalizerOf(f, a).reRegisters
  }

  /** Objects whose finalizer is still to be called. */
  ghost function Awaiting(m: Memory): set<Addr> {
    set a | a in m && AwaitsFinalizer(m[a])
  }

  /** After a pass with quiet finalizers only reachable objects, and objects that are never collected, await theirs. */
  ghost predicate AllFinalized(m: Memory, n: Memory, roots: seq<Addr>, listed: seq<Addr>) {
    forall a :: a in n && AwaitsFinalizer(n[a]) && a in listed ==> a in m && Reachable(m, roots, a)
  }

  /** A pass with quiet finalizers only makes fewer objects await theirs, and strictly fewer if it called one. */
  ghost predicate Finalizing(m: Memory, n: Memory, pending: nat) {
    Awaiting(n) <= Awaiting(m) && (pending > 0 ==> Awaiting(n) != Awaiting(m))
  }

  lemma QuietCharacteristic(h: Header, index: MarkIndex, f: Finalizer)
    requires IsPending(h, index) ==> !f.reRegisters
    ensures IsFinalizerCalled(h.characteristic) || IsPending(h, index) ==> IsFinalizerCalled(SweptCharacteristic(h, index, f))
    ensures !IsPending(h, index) ==> SweptCharacteristic(h, index, f) == h.characteristic
    ensures IsPending(h, index) ==> IsMarked(SweptCharacteristic(h, index, f), index)
    ensures IsPending(h, index) ==> h.runtimeType.hasFinalizer && !IsFinalizerCalled(h.characteristic)
  {
  }

  /** One header through a sweep with quiet finalizers. */
  lemma QuietSweep(k: Memory, n: Memory, begin: Addr, index: MarkIndex, f: Finalizers, listed: seq<Addr>, added: seq<Addr>, a: Addr)
    requires AllIn(k, listed) && Swept(k, n, begin, index, f, listed, added) && AllocatesQuietly(f) && a in n
    requires a in listed && a in k && IsPending(k[a], index) ==> !FinalizerOf(f, a).reRegisters
    ensures AwaitsFinalizer(n[a]) ==> a in k && AwaitsFinalizer(k[a]) && !(a in listed && IsPending(k[a], index))
  {
    hide Kept, Dropped, IsPending, SweptCharacteristic, AllocatedTypes, Chain, IsInitialized, IsConst, IsMarked;
    if a in added {
      assert IsFresh(n[a], index, f);
    } else {
      if a in listed { QuietCharacteristic(k[a], index, FinalizerOf(f, a)); }
    }
  }

  lemma {:induction false} QuietPass(m: Memory, k: Memory, n: Memory, begin: Addr, index: MarkIndex, f: Finalizers, listed: seq<Addr>,
                  added: seq<Addr>, roots: seq<Addr>)
    requires Marks(m, k, index, roots)
    requires AllIn(k, listed) && Swept(k, n, begin, index, f, listed, added) && AllocatesQuietly(f)
    requires forall a :: a in Pending(k, index, listed) ==> !FinalizerOf(f, a).reRegisters
    ensures Finalizing(m, n, |Pending(k, index, listed)|)
    ensures forall a :: a in n && AwaitsFinalizer(n[a]) ==> a in m && AwaitsFinalizer(m[a]) && !(a in Pending(k, index, listed))
  {
    hide Marks, OnlyMarks, Swept, Edges, IsPending, IsFinalizerCalled, IsInitialized, IsMarked, IsConst, Pending, Reachable;
    MarksGiveOnly(m, k, index, roots);
    SameKeys(m, k, index);
    PendingMembers(k, index, listed);
    forall a | a in n && AwaitsFinalizer(n[a])
      ensures a in m && AwaitsFinalizer(m[a]) && !(a in listed && IsPending(k[a], index))
    {
      QuietSweep(k, n, begin, index, f, listed, added, a);
      OnlyMarksFacts(m, k, index, a);
    }
    if Pending(k, index, listed) != [] {
      var a := Pending(k, index, listed)[0];
      assert a in Pending(k, index, listed);
      OnlyMarksFacts(m, k, index, a);
      QuietCharacteristic(k[a], index, Finalizer([], false, true));
      assert a in Awaiting(m) && a !in Awaiting(n);
    }
  }

  /** A finalizer that re-registers its object leaves it awaiting its finalizer. */
  lemma {:induction false} ReRegisteredAwaits(m: Memory, k: Memory, n: Memory, begin: Addr, index: MarkIndex, f: Finalizers, listed: seq<Addr>,
                                              added: seq<Addr>, roots: seq<Addr>, a: Addr)
    requires AllIn(k, listed) && Swept(k, n, begin, index, f, listed, added) && Marks(m, k, index, roots)
    requires Parity(m, FlipIndex(index), listed) && 0 !in m
    requires IsFinalized(m, roots, listed, a) && FinalizerOf(f, a).reRegisters
    ensures a in n && AwaitsFinalizer(n[a]) && a in added + Kept(k, index, listed)
  {
    hide Edges, Reachable, OnlyMarks, Pending, Kept, Dropped, Chain, Marks;
    PendingIsFinalized(m, k, index, listed, roots, a);
    PendingMembers(k, index, listed);
    KeptMembers(k, index, listed);
    DroppedMembers(k, index, listed);
    PendingNotDropped(k[a], index);
    MarksGiveOnly(m, k, index, roots);
    SameKeys(m, k, index);
    assert k[a].runtimeType.hasFinalizer;
  }

  lemma HeaderKeepsChain(m: Memory, begin: Addr, listed: seq<Addr>, a: Addr, h: Header)
    requires Chain(m, begin, listed) && a in m && h.pNext == m[a].pNext
    ensures Chain(m[a := h], begin, listed)
  {
  }

  lemma HeaderKeepsParity(m: Memory, index: MarkIndex, listed: seq<Addr>, a: Addr, h: Header)
    requires Parity(m, index, listed) && a in m
    requires IsConst(h.characteristic) == IsConst(m[a].characteristic)
    requires IsInitialized(h.characteristic) == IsInitialized(m[a].characteristic)
    requires IsMarked(h.characteristic, index) == IsMarked(m[a].characteristic, index)
    ensures Parity(m[a := h], index, listed)
  {
    hide IsConst, IsInitialized, IsMarked;
  }
}
