/** Waiting for pending finalizers and the final collection
    (IL2C.Runtime/src/System/GC.c, IL2C.Runtime/src/Core/il2c_gc.c). */
module GcShutdown {
  import opened RefHeaders
  import opened GcMark
  import opened GcSweep
  import opened GcCollect
  import opened GcAnchor
  import opened RootReferences
  import opened GcRuntime
  import opened Ascending

  /** What was reachable is still there and still reachable. */
  ghost predicate StaysReachable(m: Memory, n: Memory, roots: seq<Addr>) {
    forall x :: x in m && Reachable(m, roots, x) ==>
      x in n && Reachable(n, roots, x) && n[x].runtimeType == m[x].runtimeType
  }

  /** What was reachable without the anchor still is. */
  ghost predicate StaysFirm(m: Memory, n: Memory, roots: seq<Addr>, thread: Addr)
    requires IsThread(m, thread) && IsThread(n, thread)
  {
    forall x :: x in m && Reachable(WithAnchor(m, thread, 0), roots, x) ==>
      x in n && Reachable(WithAnchor(n, thread, 0), roots, x) && n[x].runtimeType == m[x].runtimeType
  }

  lemma CollectKeepsFirm(m: Memory, n: Memory, thread: Addr, roots: seq<Addr>, listed: seq<Addr>, f: Finalizers)
    requires IsThread(m, thread) && IsThread(n, thread) && Collected(m, n, thread, roots, listed, f) && 0 !in m
    ensures StaysFirm(m, n, roots, thread)
  {
    hide Reachable, Collected;
    forall x | x in m && Reachable(WithAnchor(m, thread, 0), roots, x)
      ensures x in n && Reachable(WithAnchor(n, thread, 0), roots, x) && n[x].runtimeType == m[x].runtimeType
    {
      FirmlyHeldStays(m, n, thread, roots, listed, f, x);
      FirmlyHeldIsHeld(m, roots, thread, x);
      CollectedKeeps(m, n, thread, roots, listed, f, x);
    }
  }

  lemma CollectKeepsReachable(m: Memory, n: Memory, thread: Addr, roots: seq<Addr>, listed: seq<Addr>, f: Finalizers)
    requires IsThread(m, thread) && Safe(m, roots) && Collected(m, n, thread, roots, listed, f) && 0 !in m
    requires !ReplacesAnchor(m, roots, listed, f)
    ensures StaysReachable(m, n, roots)
  {
    hide Reachable, Collected, Safe;
    forall x | x in m && Reachable(m, roots, x)
      ensures x in n && Reachable(n, roots, x) && n[x].runtimeType == m[x].runtimeType
    {
      HeldAfterCollect(m, n, thread, roots, listed, f, x);
      CollectedKeeps(m, n, thread, roots, listed, f, x);
    }
  }

  /** Finalizers allocate no finalizable objects, and those that re-register their object belong to objects that are held
      without the anchor: they are not called. */
  ghost predicate IsQuietFor(f: Finalizers, m: Memory, thread: Addr, roots: seq<Addr>, listed: seq<Addr>)
    requires IsThread(m, thread)
  {
    && AllocatesQuietly(f)
    && forall a :: a in m && a in listed && AwaitsFinalizer(m[a]) && FinalizerOf(f, a).reRegisters ==> HeldFirmly(m, roots, thread, a)
  }

  lemma QuietTurn(m: Memory, thread: Addr, roots: seq<Addr>, listed: seq<Addr>, f: Finalizers)
    requires IsThread(m, thread) && IsQuietFor(f, m, thread, roots, listed) && 0 !in m
    ensures IsQuietIn(f, m, roots, listed)
  {
    hide Reachable, AwaitsFinalizer, AllocatesQuietly;
    forall a | IsFinalized(m, roots, listed, a) ensures !FinalizerOf(f, a).reRegisters {
      if FinalizerOf(f, a).reRegisters { FirmlyHeldIsHeld(m, roots, thread, a); }
    }
  }

  lemma StaysQuiet(m: Memory, n: Memory, thread: Addr, roots: seq<Addr>, listed: seq<Addr>, listed': seq<Addr>, f: Finalizers, pending: nat)
    requires IsThread(m, thread) && IsThread(n, thread) && IsQuietFor(f, m, thread, roots, listed) && 0 !in m
    requires StaysFirm(m, n, roots, thread) && Finalizing(m, n, pending) && forall a :: a in listed' ==> a in listed || a !in m
    ensures IsQuietFor(f, n, thread, roots, listed')
  {
    hide Reachable, AwaitsFinalizer, AllocatesQuietly;
    forall a | a in n && a in listed' && AwaitsFinalizer(n[a]) && FinalizerOf(f, a).reRegisters ensures HeldFirmly(n, roots, thread, a) {
      assert a in Awaiting(n);
      assert a in Awaiting(m);
    }
  }

  /** Once everything unreachable has been finalized, and the anchor has stayed, the next collection has nothing to call. */
  lemma NothingLeft(m: Memory, n: Memory, roots: seq<Addr>, listed: seq<Addr>, listed': seq<Addr>)
    requires AllFinalized(m, n, roots, listed) && StaysReachable(m, n, roots)
    requires Awaiting(n) <= Awaiting(m) && forall a :: a in listed' ==> a in listed || a !in m
    ensures forall a :: !IsFinalized(n, roots, listed', a)
  {
    hide Reachable, AwaitsFinalizer;
    forall a ensures !IsFinalized(n, roots, listed', a) {
      if a in n && AwaitsFinalizer(n[a]) && a in listed' {
        assert a in Awaiting(n);
        assert a in Awaiting(m);
      }
    }
  }

  lemma ProperSubsetCardinality(s: set<Addr>, t: set<Addr>)
    requires s < t
    ensures |s| < |t|
  {
    assert t == s + (t - s);
    assert t - s != {};
    var x :| x in t - s;
    SubsetCardinality(s, t - {x});
  }

  /** Terminates because every turn that leaves something pending has called at least one finalizer. What was reachable
      stays so, unless a finalizer of the first turn overwrites the anchor; then exactly what is reachable without the
      anchor is still reachable after that turn, and stays so. */
  method WaitForPendingFinalizers(r: Runtime, f: Finalizers) returns (ghost first: Memory)
    requires r.Valid() && IsQuietFor(f, r.heap.memory, r.thread, r.Roots(), r.listed)
    modifies r.heap, r`listed
    ensures r.Valid() && r.Roots() == old(r.Roots())
    ensures r.heap.pendingRemains == 0
    ensures old(r.heap.pendingRemains) == 0 ==> r.heap.memory == old(r.heap.memory)
    ensures StaysFirm(old(r.heap.memory), r.heap.memory, r.Roots(), r.thread)
    ensures old(r.heap.pendingRemains) == 0 || !ReplacesAnchor(old(r.heap.memory), r.Roots(), old(r.listed), f) ==>
              StaysReachable(old(r.heap.memory), r.heap.memory, r.Roots())
    ensures old(r.heap.pendingRemains) > 0 ==> Collected(old(r.heap.memory), first, r.thread, r.Roots(), old(r.listed), f)
    ensures Awaiting(r.heap.memory) <= Awaiting(old(r.heap.memory))
  {
    hide Consistent, Reachable, AwaitsFinalizer, Collected, IsQuietFor, IsQuietIn, ReplacesAnchor, IsFinalized, AllFinalized;
    first := r.heap.memory;
    ghost var started, m0, roots := false, r.heap.memory, r.Roots();
    while r.heap.pendingRemains >= 1
      invariant r.Valid() && r.Roots() == roots
      invariant IsQuietFor(f, r.heap.memory, r.thread, roots, r.listed)
      invariant !started ==> r.heap.memory == m0 && r.listed == old(r.listed) && r.heap.pendingRemains == old(r.heap.pendingRemains)
      invariant started ==> old(r.heap.pendingRemains) > 0 && Collected(m0, first, r.thread, roots, old(r.listed), f)
      invariant StaysFirm(m0, r.heap.memory, roots, r.thread)
      invariant !ReplacesAnchor(m0, roots, old(r.listed), f) ==> StaysReachable(m0, r.heap.memory, roots)
      invariant started && !ReplacesAnchor(m0, roots, old(r.listed), f) ==> forall a :: !IsFinalized(r.heap.memory, roots, r.listed, a)
      invariant Awaiting(r.heap.memory) <= Awaiting(m0)
      decreases |Awaiting(r.heap.memory)| + if r.heap.pendingRemains >= 1 then 1 else 0
    {
      ghost var m, listed := r.heap.memory, r.listed;
      NullIsNoObject(m, r.heap.pBeginHeader, r.heap.collectionMarkIndex, listed, roots);
      SafeGives(m, r.heap.pBeginHeader, r.heap.collectionMarkIndex, listed, roots);
      QuietTurn(m, r.thread, roots, listed, f);
      r.Collect(f);
      ghost var n := r.heap.memory;
      CollectKeepsFirm(m, n, r.thread, roots, listed, f);
      StaysQuiet(m, n, r.thread, roots, listed, r.listed, f, r.heap.pendingRemains);
      if !ReplacesAnchor(m0, roots, old(r.listed), f) {
        if started { NothingReplaced(m, roots, listed, f); }
        CollectKeepsReachable(m, n, r.thread, roots, listed, f);
        NothingLeft(m, n, roots, listed, r.listed);
      }
      if !started { first, started := n, true; }
      SubsetCardinality(Awaiting(n), Awaiting(m));
      if r.heap.pendingRemains > 0 { ProperSubsetCardinality(Awaiting(n), Awaiting(m)); }
    }
  }

  lemma NothingReplaced(m: Memory, roots: seq<Addr>, listed: seq<Addr>, f: Finalizers)
    requires forall a :: !IsFinalized(m, roots, listed, a)
    ensures !ReplacesAnchor(m, roots, listed, f)
  {
  }

  /** When the finalizer of an unreachable object re-registers it, waiting goes on after any number of turns. */
  method WaitForever(r: Runtime, f: Finalizers, turns: nat, ghost a: Addr)
    requires r.Valid() && r.heap.pendingRemains >= 1
    requires IsFinalized(r.heap.memory, r.Roots(), r.listed, a) && FinalizerOf(f, a).reRegisters
    modifies r.heap, r`listed
    ensures r.Valid() && r.Roots() == old(r.Roots()) && r.heap.pendingRemains >= 1
    ensures IsFinalized(r.heap.memory, r.Roots(), r.listed, a)
  {
    hide Consistent, Reachable, Collected, IsQuietIn, AllFinalized, IsFinalized, r.Roots;
    for turn := 0 to turns
      invariant r.Valid() && r.Roots() == old(r.Roots()) && r.heap.pendingRemains >= 1
      invariant IsFinalized(r.heap.memory, r.Roots(), r.listed, a)
    {
      r.Collect(f);
    }
  }

  // ---------------------------------------------------------------------------------------------
  // Shutdown

  lemma {:induction false} PendingDistinct(m: Memory, index: MarkIndex, l: seq<Addr>)
    requires AllIn(m, l) && Distinct(l)
    ensures Distinct(Pending(m, index, l)) && Distinct(Dropped(m, index, l))
  {
    hide IsPending, IsDropped;
    if l != [] {
      var n := |l| - 1;
      PendingDistinct(m, index, l[..n]);
      PendingMembers(m, index, l[..n]);
      DroppedMembers(m, index, l[..n]);
      assert forall i :: 0 <= i < |Pending(m, index, l[..n])| ==> Pending(m, index, l[..n])[i] in l[..n];
      assert forall i :: 0 <= i < |Dropped(m, index, l[..n])| ==> Dropped(m, index, l[..n])[i] in l[..n];
    }
  }

  /** Without any marking, every listed header is either dropped or waits for its finalizer. */
  lemma AllGarbage(m: Memory, index: MarkIndex, l: seq<Addr>, a: Addr)
    requires Parity(m, FlipIndex(index), l) && a in l && a in m
    ensures IsPending(m[a], index) <==> AwaitsFinalizer(m[a])
    ensures IsDropped(m[a], index) <==> !AwaitsFinalizer(m[a])
  {
  }

  /** One turn of the final loop. */
  method FinalPass(r: Runtime, f: Finalizers)
    returns (remains: nat, ghost added: seq<Addr>, ghost pending: seq<Addr>, ghost dropped: seq<Addr>, ghost events: seq<Event>)
    requires Chain(r.heap.memory, r.heap.pBeginHeader, r.listed) && 0 !in r.heap.memory
    requires Parity(r.heap.memory, r.heap.collectionMarkIndex, r.listed) && IsQuiet(f)
    requires r.rootReferences != r.fixedReferences
    modifies r.heap, r`listed, r.rootReferences, r.fixedReferences
    ensures Chain(r.heap.memory, r.heap.pBeginHeader, r.listed) && 0 !in r.heap.memory
    ensures Parity(r.heap.memory, r.heap.collectionMarkIndex, r.listed)
    ensures r.rootReferences.blocks == [] && r.fixedReferences.blocks == []
    ensures forall a :: a in r.listed ==> a in r.heap.memory && !AwaitsFinalizer(r.heap.memory[a])
    ensures forall a :: a in old(r.heap.memory) && a !in old(r.listed) ==> a in r.heap.memory
    ensures forall a :: a in r.listed <==> a in added || a in pending
    ensures forall a :: a in added ==> a !in old(r.heap.memory)
    ensures forall a :: a in pending <==> a in old(r.listed) && a in old(r.heap.memory) && AwaitsFinalizer(old(r.heap.memory)[a])
    ensures forall a :: a in dropped <==> a in old(r.listed) && a in old(r.heap.memory) && !AwaitsFinalizer(old(r.heap.memory)[a])
    ensures Distinct(pending) && Distinct(dropped)
    ensures pending == [] ==> r.listed == []
    ensures remains == 0 <==> pending == []
    ensures events == FinalizedAll(pending) + FreedAll(dropped)
  {
    hide Chain, Parity, Kept, Dropped, Pending, Swept, AwaitsFinalizer, IsPending, IsDropped, IsQuiet, Marks;
    ghost var m, l := r.heap.memory, r.listed;
    FlipTwice(r.heap.collectionMarkIndex);
    r.heap.collectionMarkIndex := FlipIndex(r.heap.collectionMarkIndex);
    ghost var index := r.heap.collectionMarkIndex;
    r.rootReferences.UnregisterAll();
    r.fixedReferences.UnregisterAll();
    ghost var anchor;
    remains, anchor, added, events := Step3Sweep(r.heap, f, 0, l);
    pending, dropped := Pending(m, index, l), Dropped(m, index, l);
    Members(m, index, l, old(r.heap.pBeginHeader));
    MarksNothing(m, index, []);
    ParityAfter(m, m, r.heap.memory, r.heap.pBeginHeader, index, f, l, added, []);
    AfterPass(m, r.heap.memory, r.heap.pBeginHeader, index, f, l, added);
    r.listed := added + Kept(m, index, l);
  }

  /** Which headers are kept, finalized and dropped when nothing was marked. */
  lemma {:induction false} Members(m: Memory, index: MarkIndex, l: seq<Addr>, begin: Addr)
    requires AllIn(m, l) && Parity(m, FlipIndex(index), l) && Chain(m, begin, l)
    ensures forall a :: a in Pending(m, index, l) <==> a in l && a in m && AwaitsFinalizer(m[a])
    ensures forall a :: a in Dropped(m, index, l) <==> a in l && a in m && !AwaitsFinalizer(m[a])
    ensures forall a :: a in Kept(m, index, l) <==> a in Pending(m, index, l)
    ensures Distinct(Pending(m, index, l)) && Distinct(Dropped(m, index, l))
    ensures Kept(m, index, l) == [] <==> Pending(m, index, l) == []
  {
    hide Parity, IsPending, IsDropped, AwaitsFinalizer, Pending, Dropped, Kept, Segment;
    PendingMembers(m, index, l);
    DroppedMembers(m, index, l);
    KeptMembers(m, index, l);
    PendingDistinct(m, index, l);
    forall a | a in l && a in m
      ensures IsPending(m[a], index) <==> AwaitsFinalizer(m[a])
      ensures IsDropped(m[a], index) <==> !AwaitsFinalizer(m[a])
    {
      AllGarbage(m, index, l, a);
    }
    if Kept(m, index, l) != [] { assert Kept(m, index, l)[0] in Pending(m, index, l); }
    if Pending(m, index, l) != [] { assert Pending(m, index, l)[0] in Kept(m, index, l); }
  }

  lemma QuietMeans(f: Finalizers)
    requires IsQuiet(f)
    ensures AllocatesQuietly(f) && forall a :: !FinalizerOf(f, a).reRegisters
  {
  }

  lemma {:induction false} AfterPass(m: Memory, n: Memory, begin: Addr, index: MarkIndex, f: Finalizers, l: seq<Addr>, added: seq<Addr>)
    requires AllIn(m, l) && Swept(m, n, begin, index, f, l, added) && IsQuiet(f) && Parity(m, FlipIndex(index), l)
    ensures Chain(n, begin, added + Kept(m, index, l))
    ensures forall a :: a in added ==> a !in m
    ensures forall a :: a in m && a !in l ==> a in n
    ensures forall a :: a in added + Kept(m, index, l) ==> a in n && !AwaitsFinalizer(n[a])
  {
    hide Parity, IsPending, IsDropped, AwaitsFinalizer, IsQuiet, Kept, Dropped, SweptCharacteristic, IsFresh, AllocatesQuietly, FinalizerOf;
    QuietMeans(f);
    KeptMembers(m, index, l);
    DroppedMembers(m, index, l);
    forall a | a in added + Kept(m, index, l) ensures a in n && !AwaitsFinalizer(n[a]) {
      QuietSweep(m, n, begin, index, f, l, added, a);
      if a in Kept(m, index, l) { AllGarbage(m, index, l, a); }
    }
  }

  lemma EventsAppend(a: seq<Addr>, b: seq<Addr>, c: seq<Addr>)
    ensures (FinalizedAll(a) + FreedAll(b)) + (FinalizedAll([]) + FreedAll(c)) == FinalizedAll(a) + FreedAll(b + c)
  {
  }

  lemma DistinctAppend(a: seq<Addr>, b: seq<Addr>)
    requires Distinct(a) && Distinct(b) && Disjoint(a, b)
    ensures Distinct(a + b)
  {
    forall i, j | 0 <= i < j < |a + b| ensures (a + b)[i] != (a + b)[j] {
      if i < |a| <= j { assert a[i] in a && b[j - |a|] in b; }
    }
  }

  /** The final collection: within two passes every listed object is freed exactly once, after each
      finalizer still to be called has been called exactly once. */
  method CollectForFinalShutdown(r: Runtime, f: Finalizers)
    returns (ghost passes: nat, ghost finalized: seq<Addr>, ghost freed: seq<Addr>, ghost events: seq<Event>)
    requires r.Valid() && IsQuiet(f)
    modifies r.heap, r`listed, r.rootReferences, r.fixedReferences
    ensures passes <= 2 && r.listed == [] && r.heap.pBeginHeader == 0
    ensures r.rootReferences.blocks == [] && r.fixedReferences.blocks == []
    ensures forall a :: a in r.heap.memory ==> IsConst(r.heap.memory[a].characteristic)
    ensures forall a :: a in old(r.heap.memory) && IsConst(old(r.heap.memory)[a].characteristic) ==> a in r.heap.memory
    ensures events == FinalizedAll(finalized) + FreedAll(freed)
    ensures Distinct(finalized) && Distinct(freed)
    ensures forall a :: a in finalized <==>
              a in old(r.listed) && a in old(r.heap.memory) && AwaitsFinalizer(old(r.heap.memory)[a])
    ensures forall a :: a in old(r.listed) ==> a in freed
    ensures forall a :: a in freed ==> a in old(r.listed) || a !in old(r.heap.memory)
  {
    hide AwaitsFinalizer, IsQuiet, Safe, Reachable, Distinct, Segment, RootList.Valid, IsThread;
    passes, finalized, freed, events := 0, [], [], [];
    ghost var m, l := r.heap.memory, r.listed;
    ListedIn(m, r.heap.pBeginHeader, l);
    while true
      invariant Chain(r.heap.memory, r.heap.pBeginHeader, r.listed) && 0 !in r.heap.memory
      invariant Parity(r.heap.memory, r.heap.collectionMarkIndex, r.listed)
      invariant passes == 0 ==> r.heap.memory == m && r.listed == l && finalized == freed == [] && events == []
      invariant passes == 0 || passes == 1
      invariant passes == 1 ==>
        && (forall a :: a in r.listed ==> a in r.heap.memory && !AwaitsFinalizer(r.heap.memory[a]))
        && (forall a :: a in m && a !in l ==> a in r.heap.memory)
        && (forall a :: a in finalized <==> a in l && a in m && AwaitsFinalizer(m[a]))
        && (forall a :: a in freed <==> a in l && a in m && !AwaitsFinalizer(m[a]))
        && (forall a :: a in r.listed ==> a in finalized || a !in m)
        && (forall a :: a in finalized ==> a in r.listed)
        && (forall a :: a in m && a !in l ==> a !in r.listed)
        && Distinct(finalized) && Distinct(freed) && events == FinalizedAll(finalized) + FreedAll(freed)
      decreases 2 - passes
    {
      var remains;
      ghost var added, pending, dropped, now;
      ghost var before := r.listed;
      remains, added, pending, dropped, now := FinalPass(r, f);
      if passes == 0 {
        finalized, freed, events := pending, dropped, now;
      } else {
        EmptyIfNoMember(pending);
        assert forall a :: a in dropped <==> a in before;
        EventsAppend(finalized, freed, dropped);
        DistinctAppend(freed, dropped);
        freed, events := freed + dropped, events + now;
      }
      passes := passes + 1;
      if remains == 0 { break; }
    }
    ghost var n := r.heap.memory;
    assert forall a :: a in n ==> IsConst(n[a].characteristic);
  }

  lemma ListedIn(m: Memory, begin: Addr, l: seq<Addr>)
    requires Chain(m, begin, l)
    ensures forall a :: a in l ==> a in m
  {
  }
}
