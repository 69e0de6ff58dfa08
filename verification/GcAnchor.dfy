/** The temporary reference anchor of the collecting thread: finalizers run in that thread and overwrite it
    (IL2C.Runtime/src/Core/il2c_gc.c, IL2C.Runtime/src/Core/il2c_allocator.c). */
module GcAnchor {
  import opened Wrappers
  import opened RefHeaders
  import opened GcMark
  import opened GcSweep
  import opened GcCollect

  ghost predicate IsThread(m: Memory, thread: Addr) {
    thread != 0 && thread in m && m[thread].body.Thread? && !IsConst(m[thread].characteristic)
  }

  /** A reference the mutator can hold: null, or reachable from the roots. */
  ghost predicate HeldIn(m: Memory, roots: seq<Addr>, a: Addr) {
    a == 0 || (a in m && Reachable(m, roots, a))
  }

  function AnchorOf(m: Memory, thread: Addr): Addr
    requires thread in m && m[thread].body.Thread?
  {
    m[thread].body.temporaryReferenceAnchor
  }

  function Anchored(h: Header, a: Addr): Header
    requires h.body.Thread?
  {
    h.(body := h.body.(temporaryReferenceAnchor := a))
  }

  function WithAnchor(m: Memory, thread: Addr, a: Addr): Memory
    requires thread in m && m[thread].body.Thread?
  {
    m[thread := Anchored(m[thread], a)]
  }

  /** Held on a way that does not go through the anchor. */
  ghost predicate HeldFirmly(m: Memory, roots: seq<Addr>, thread: Addr, a: Addr)
    requires thread in m && m[thread].body.Thread?
  {
    HeldIn(WithAnchor(m, thread, 0), roots, a)
  }

  /** A collection calls a finalizer that writes the anchor. */
  ghost predicate ReplacesAnchor(m: Memory, roots: seq<Addr>, listed: seq<Addr>, f: Finalizers) {
    exists a :: IsFinalized(m, roots, listed, a) && WritesAnchor(FinalizerOf(f, a))
  }

  /** Null, or a new object without references. */
  ghost predicate IsNewAnchor(m: Memory, n: Memory, a: Addr) {
    a == 0 || (a in n && a !in m && forall e :: e in Edges(n[a]) ==> e == 0)
  }

  /** A collection by this thread: what the heap holds afterwards, and what has become of the anchor. */
  ghost predicate Collected(m: Memory, n: Memory, thread: Addr, roots: seq<Addr>, listed: seq<Addr>, f: Finalizers)
    requires IsThread(m, thread)
  {
    && IsThread(n, thread)
    && CollectedHeaders(m, WithAnchor(n, thread, AnchorOf(m, thread)), roots, listed)
    && if ReplacesAnchor(m, roots, listed, f) then IsNewAnchor(m, n, AnchorOf(n, thread))
       else AnchorOf(n, thread) == AnchorOf(m, thread)
  }

  lemma AnchorEdges(h: Header, a: Addr)
    requires h.body.Thread?
    ensures
      && a in Edges(Anchored(h, a)) && (forall e :: e in Edges(Anchored(h, a)) ==> e == a || e in Edges(h))
      && (forall e :: e in Edges(h) ==> e == h.body.temporaryReferenceAnchor || e in Edges(Anchored(h, a)))
  {
    var b := h.body;
    var first := if b.start != 0 then [b.start, b.parameter] else [];
    assert Edges(Anchored(h, a)) == first + [a] + TrackingReferences(b.frames);
    assert Edges(Anchored(h, a))[|first|] == a;
    assert Edges(h) == first + [b.temporaryReferenceAnchor] + TrackingReferences(b.frames);
  }

  lemma SameAnchor(m: Memory, thread: Addr)
    requires IsThread(m, thread)
    ensures WithAnchor(m, thread, AnchorOf(m, thread)) == m
  {
    assert Anchored(m[thread], AnchorOf(m, thread)) == m[thread];
  }

  /** A header that was reachable, after the collection. */
  lemma CollectedKeeps(m: Memory, n: Memory, thread: Addr, roots: seq<Addr>, listed: seq<Addr>, f: Finalizers, a: Addr)
    requires IsThread(m, thread) && Collected(m, n, thread, roots, listed, f) && a in m && Reachable(m, roots, a)
    ensures a in n && n[a].runtimeType == m[a].runtimeType && IsConst(n[a].characteristic) == IsConst(m[a].characteristic)
    ensures a != thread ==> n[a].body == m[a].body && Edges(n[a]) == Edges(m[a])
    ensures a == thread ==> n[a].body == m[a].body.(temporaryReferenceAnchor := AnchorOf(n, thread))
    ensures a == thread ==> Edges(n[a]) == Edges(Anchored(m[a], AnchorOf(n, thread)))
  {
    hide Edges, Reachable, IsConst;
    if a != thread {
      SameEdges(m[a], n[a]);
    } else {
      SameEdges(n[a], Anchored(m[a], AnchorOf(n, thread)));
    }
  }

  /** Without the anchor less is reachable. */
  lemma FirmlyHeldIsHeld(m: Memory, roots: seq<Addr>, thread: Addr, a: Addr)
    requires IsThread(m, thread) && HeldFirmly(m, roots, thread, a)
    ensures HeldIn(m, roots, a)
  {
    hide Edges;
    if a != 0 {
      var o := WithAnchor(m, thread, 0);
      var r :| r in roots && r != 0 && Reaches(o, r, a);
      var p :| Walk(o, p) && p[0] == r && p[|p| - 1] == a;
      AnchorEdges(m[thread], 0);
      assert forall i :: 0 <= i < |p| - 1 ==> Follows(o, p[i], p[i + 1]) && Follows(m, p[i], p[i + 1]);
      assert Walk(m, p);
      assert Reaches(m, r, a);
    }
  }

  /** A way that avoids the anchor survives every collection. */
  lemma {:induction false} FirmWalkSurvives(m: Memory, n: Memory, thread: Addr, roots: seq<Addr>, listed: seq<Addr>, f: Finalizers, p: seq<Addr>, k: nat)
    requires IsThread(m, thread) && Collected(m, n, thread, roots, listed, f)
    requires Walk(WithAnchor(m, thread, 0), p) && p[0] in roots && p[0] != 0 && k < |p|
    ensures p[k] in n && p[k] in m && Reachable(m, roots, p[k]) && IsThread(n, thread)
    ensures k > 0 ==> Follows(n, p[k - 1], p[k]) && Follows(WithAnchor(n, thread, 0), p[k - 1], p[k])
  {
    hide Edges, CollectedHeaders, ReplacesAnchor;
    var o := WithAnchor(m, thread, 0);
    if k == 0 {
      ReachesSelf(m, p[0]);
    } else {
      FirmWalkSurvives(m, n, thread, roots, listed, f, p, k - 1);
      var a, b := p[k - 1], p[k];
      assert Follows(o, p[k - 1], p[(k - 1) + 1]);
      AnchorEdges(m[thread], 0);
      assert Follows(m, a, b);
      var r :| r in roots && r != 0 && Reaches(m, r, a);
      ReachesEdge(m, r, a, b);
      FollowsStays(m, n, thread, roots, listed, f, a, b);
    }
    CollectedKeeps(m, n, thread, roots, listed, f, p[k]);
  }

  lemma FollowsStays(m: Memory, n: Memory, thread: Addr, roots: seq<Addr>, listed: seq<Addr>, f: Finalizers, a: Addr, b: Addr)
    requires IsThread(m, thread) && Collected(m, n, thread, roots, listed, f)
    requires a in m && Reachable(m, roots, a) && Follows(WithAnchor(m, thread, 0), a, b)
    ensures Follows(n, a, b) && IsThread(n, thread) && Follows(WithAnchor(n, thread, 0), a, b)
  {
    hide Edges, CollectedHeaders, ReplacesAnchor, Reachable;
    CollectedKeeps(m, n, thread, roots, listed, f, a);
    if a == thread {
      SameEdges(Anchored(n[a], 0), Anchored(m[a], 0));
      AnchorEdges(Anchored(m[a], 0), AnchorOf(n, thread));
      assert Anchored(Anchored(m[a], 0), AnchorOf(n, thread)) == Anchored(m[a], AnchorOf(n, thread));
    }
  }

  /** A way after a collection that has replaced the anchor was there before, and avoided the anchor. */
  lemma {:induction false} WalkWasFirm(m: Memory, n: Memory, thread: Addr, roots: seq<Addr>, listed: seq<Addr>, f: Finalizers, p: seq<Addr>, k: nat)
    requires IsThread(m, thread) && Collected(m, n, thread, roots, listed, f) && ReplacesAnchor(m, roots, listed, f)
    requires Safe(m, roots)
    requires Walk(n, p) && p[0] in roots && p[0] != 0 && k < |p| && p[|p| - 1] in m
    ensures p[k] in m && p[k] != 0 && Reachable(WithAnchor(m, thread, 0), roots, p[k])
  {
    hide Edges, Collected, ReplacesAnchor, Safe;
    var o := WithAnchor(m, thread, 0);
    if k == 0 {
      RootIn(m, roots, p[0]);
      ReachesSelf(o, p[0]);
    } else {
      WalkWasFirm(m, n, thread, roots, listed, f, p, k - 1);
      var a, b := p[k - 1], p[k];
      assert Follows(n, p[k - 1], p[(k - 1) + 1]);
      FirmlyHeldIsHeld(m, roots, thread, a);
      if k < |p| - 1 { assert Follows(n, p[k], p[k + 1]); }
      StepWasFirm(m, n, thread, roots, listed, f, a, b);
      var r :| r in roots && r != 0 && Reaches(o, r, a);
      ReachesEdge(o, r, a, b);
    }
  }

  lemma RootIn(m: Memory, roots: seq<Addr>, a: Addr)
    requires Safe(m, roots) && a in roots && a != 0
    ensures a in m
  {
  }

  /** No way after a collection leads to an object that was unreachable before it. */
  lemma {:induction false} WalkWas(m: Memory, n: Memory, thread: Addr, roots: seq<Addr>, listed: seq<Addr>, f: Finalizers, p: seq<Addr>, k: nat)
    requires IsThread(m, thread) && Safe(m, roots) && Collected(m, n, thread, roots, listed, f)
    requires Walk(n, p) && p[0] in roots && p[0] != 0 && k < |p| && p[|p| - 1] in m
    ensures p[k] in m && Reachable(m, roots, p[k])
  {
    hide Edges, Collected, ReplacesAnchor, Safe;
    if ReplacesAnchor(m, roots, listed, f) {
      WalkWasFirm(m, n, thread, roots, listed, f, p, k);
      FirmlyHeldIsHeld(m, roots, thread, p[k]);
    } else if k == 0 {
      RootIn(m, roots, p[0]);
      ReachesSelf(m, p[0]);
    } else {
      WalkWas(m, n, thread, roots, listed, f, p, k - 1);
      var a, b := p[k - 1], p[k];
      assert Follows(n, p[k - 1], p[(k - 1) + 1]);
      assert Follows(m, a, b) by { StepWas(m, n, thread, roots, listed, f, a, b); }
      TargetIn(m, roots, a, b);
      var r :| r in roots && r != 0 && Reaches(m, r, a);
      ReachesEdge(m, r, a, b);
    }
  }

  lemma StepWas(m: Memory, n: Memory, thread: Addr, roots: seq<Addr>, listed: seq<Addr>, f: Finalizers, a: Addr, b: Addr)
    requires IsThread(m, thread) && Collected(m, n, thread, roots, listed, f) && !ReplacesAnchor(m, roots, listed, f)
    requires a in m && Reachable(m, roots, a) && Follows(n, a, b)
    ensures Follows(m, a, b)
  {
    hide Edges, Reachable, ReplacesAnchor, CollectedHeaders;
    SameAnchor(m, thread);
    CollectedKeeps(m, n, thread, roots, listed, f, a);
  }

  lemma UnreachableStays(m: Memory, n: Memory, thread: Addr, roots: seq<Addr>, listed: seq<Addr>, f: Finalizers, a: Addr)
    requires IsThread(m, thread) && Safe(m, roots) && Collected(m, n, thread, roots, listed, f)
    requires a in m && Reachable(n, roots, a)
    ensures Reachable(m, roots, a)
  {
    hide Edges, Collected, Safe;
    var r :| r in roots && r != 0 && Reaches(n, r, a);
    var p :| Walk(n, p) && p[0] == r && p[|p| - 1] == a;
    WalkWas(m, n, thread, roots, listed, f, p, |p| - 1);
  }

  /** A step of such a way, to an object that was there or refers to something. */
  lemma StepWasFirm(m: Memory, n: Memory, thread: Addr, roots: seq<Addr>, listed: seq<Addr>, f: Finalizers, a: Addr, b: Addr)
    requires IsThread(m, thread) && Collected(m, n, thread, roots, listed, f) && ReplacesAnchor(m, roots, listed, f)
    requires Safe(m, roots) && a in m && Reachable(m, roots, a) && Follows(n, a, b)
    requires b in m || exists c :: Follows(n, b, c)
    ensures b in m && Follows(WithAnchor(m, thread, 0), a, b)
  {
    hide Edges, Safe, Reachable, ReplacesAnchor;
    var o := WithAnchor(m, thread, 0);
    var anchor := AnchorOf(n, thread);
    assert IsNewAnchor(m, n, anchor);
    assert b != anchor;
    CollectedKeeps(m, n, thread, roots, listed, f, a);
    if a == thread {
      AnchorEdges(Anchored(m[a], 0), anchor);
      assert Anchored(Anchored(m[a], 0), anchor) == Anchored(m[a], anchor);
      AnchorEdges(m[a], 0);
    }
    assert Follows(o, a, b) && Follows(m, a, b);
    TargetIn(m, roots, a, b);
  }

  lemma TargetIn(m: Memory, roots: seq<Addr>, a: Addr, b: Addr)
    requires Safe(m, roots) && a in m && Reachable(m, roots, a) && Follows(m, a, b)
    ensures b in m
  {
    hide Edges;
    var s :| ClosedSet(m, s) && ValidRefs(s, roots);
    var r :| r in roots && r != 0 && Reaches(m, r, a);
    ReachesInClosed(m, s, r, a);
  }

  /** What stays reachable: everything that was reachable, if no finalizer wrote the anchor; otherwise exactly what was
      reachable without it. What was reachable is never freed, but what only the anchor held can be lost to the next
      collection. */
  lemma HeldAfterCollect(m: Memory, n: Memory, thread: Addr, roots: seq<Addr>, listed: seq<Addr>, f: Finalizers, a: Addr)
    requires IsThread(m, thread) && Safe(m, roots) && Collected(m, n, thread, roots, listed, f) && HeldIn(m, roots, a)
    ensures a != 0 ==> a in n
    ensures HeldIn(n, roots, a) <==> !ReplacesAnchor(m, roots, listed, f) || HeldFirmly(m, roots, thread, a)
  {
    hide Edges, Collected, ReplacesAnchor, Safe;
    if a != 0 {
      CollectedKeeps(m, n, thread, roots, listed, f, a);
      if HeldFirmly(m, roots, thread, a) {
        FirmlyHeldStays(m, n, thread, roots, listed, f, a);
      } else if ReplacesAnchor(m, roots, listed, f) {
        if HeldIn(n, roots, a) {
          var r :| r in roots && r != 0 && Reaches(n, r, a);
          var p :| Walk(n, p) && p[0] == r && p[|p| - 1] == a;
          WalkWasFirm(m, n, thread, roots, listed, f, p, |p| - 1);
        }
      } else {
        HeldUnlessReplaced(m, n, thread, roots, listed, f, a);
      }
    }
  }

  lemma FirmlyHeldStays(m: Memory, n: Memory, thread: Addr, roots: seq<Addr>, listed: seq<Addr>, f: Finalizers, a: Addr)
    requires IsThread(m, thread) && Collected(m, n, thread, roots, listed, f) && HeldFirmly(m, roots, thread, a)
    ensures HeldIn(n, roots, a) && IsThread(n, thread) && HeldFirmly(n, roots, thread, a)
  {
    hide Edges, CollectedHeaders, ReplacesAnchor;
    if a != 0 {
      var r :| r in roots && r != 0 && Reaches(WithAnchor(m, thread, 0), r, a);
      var p :| Walk(WithAnchor(m, thread, 0), p) && p[0] == r && p[|p| - 1] == a;
      forall i | 0 <= i < |p| ensures p[i] in n { FirmWalkSurvives(m, n, thread, roots, listed, f, p, i); }
      forall i | 0 <= i < |p| - 1 ensures Follows(n, p[i], p[i + 1]) && Follows(WithAnchor(n, thread, 0), p[i], p[i + 1]) {
        FirmWalkSurvives(m, n, thread, roots, listed, f, p, i + 1);
      }
      assert Walk(n, p) && Walk(WithAnchor(n, thread, 0), p);
      assert Reaches(n, r, a) && Reaches(WithAnchor(n, thread, 0), r, a);
    }
  }

  lemma HeldUnlessReplaced(m: Memory, n: Memory, thread: Addr, roots: seq<Addr>, listed: seq<Addr>, f: Finalizers, a: Addr)
    requires IsThread(m, thread) && Collected(m, n, thread, roots, listed, f) && !ReplacesAnchor(m, roots, listed, f)
    requires HeldIn(m, roots, a)
    ensures HeldIn(n, roots, a)
  {
    hide Edges, ReplacesAnchor;
    SameAnchor(n, thread);
    if a != 0 {
      var r :| r in roots && r != 0 && Reaches(m, r, a);
      var p :| Walk(m, p) && p[0] == r && p[|p| - 1] == a;
      forall i | 0 <= i < |p| ensures p[i] in n && Edges(n[p[i]]) == Edges(m[p[i]]) {
        assert Walk(m, p[..i + 1]) && p[..i + 1][0] == r && p[..i + 1][i] == p[i];
        assert Reaches(m, r, p[i]);
        assert Reachable(m, roots, p[i]);
        SameEdges(m[p[i]], n[p[i]]);
      }
      assert forall i :: 0 <= i < |p| - 1 ==> Follows(m, p[i], p[i + 1]) && Follows(n, p[i], p[i + 1]);
      assert Walk(n, p);
      assert Reaches(n, r, a);
    }
  }

  /** Writing the anchor back after the pass keeps the state between collections. */
  lemma AnchorStored(m: Memory, n: Memory, begin: Addr, index: MarkIndex, listed: seq<Addr>, roots: seq<Addr>, thread: Addr, a: Addr)
    requires Consistent(n, begin, index, listed, roots) && IsThread(n, thread)
    requires a == AnchorOf(n, thread) || IsNewAnchor(m, n, a)
    ensures Consistent(WithAnchor(n, thread, a), begin, index, listed, roots) && IsThread(WithAnchor(n, thread, a), thread)
  {
    hide Chain, Parity, Safe;
    HeaderKeepsChain(n, begin, listed, thread, Anchored(n[thread], a));
    HeaderKeepsParity(n, index, listed, thread, Anchored(n[thread], a));
    AnchorKeepsSafe(m, n, roots, thread, a);
  }

  lemma AnchorKeepsSafe(m: Memory, n: Memory, roots: seq<Addr>, thread: Addr, a: Addr)
    requires Safe(n, roots) && IsThread(n, thread)
    requires a == AnchorOf(n, thread) || IsNewAnchor(m, n, a)
    ensures Safe(WithAnchor(n, thread, a), roots)
  {
    hide Edges, IsConst;
    SameAnchor(n, thread);
    if a != AnchorOf(n, thread) {
      var o := WithAnchor(n, thread, a);
      var s :| ClosedSet(n, s) && ValidRefs(s, roots);
      var t := if a == 0 then s else s + {a};
      AnchorEdges(n[thread], a);
      assert ClosedSet(o, t) && ValidRefs(t, roots);
    }
  }

  // ---------------------------------------------------------------------------------------------
  // The loss

  /** What only the anchor holds survives a collection whose finalizers write the anchor, but is not reachable any
      more, and the next collection frees it. */
  lemma LostWithAnchor(m: Memory, n: Memory, o: Memory, thread: Addr, roots: seq<Addr>, listed: seq<Addr>, listed': seq<Addr>,
                       f: Finalizers, f': Finalizers, x: Addr)
    requires IsThread(m, thread) && Safe(m, roots) && Collected(m, n, thread, roots, listed, f) && ReplacesAnchor(m, roots, listed, f)
    requires IsThread(n, thread) && Collected(n, o, thread, roots, listed', f')
    requires x != 0 && x in m && Reachable(m, roots, x) && !HeldFirmly(m, roots, thread, x)
    requires x in listed' && !m[x].runtimeType.hasFinalizer
    ensures x in n && !Reachable(n, roots, x) && x !in o
  {
    hide Edges, Reachable, ReplacesAnchor, Safe;
    HeldAfterCollect(m, n, thread, roots, listed, f, x);
    CollectedKeeps(m, n, thread, roots, listed, f, x);
  }

  /** A heap like that: a thread, an object that only its anchor holds, and garbage with a finalizer. */
  function LossyHeap(): Memory {
    var c := NewCharacteristic(0);
    map[1 := Header(0, RuntimeType("Thread", false, true, [], None), c, Thread(0, 0, 2, [])),
        2 := Header(1, RuntimeType("Returned", false, false, [], None), c, Plain(map[])),
        3 := Header(2, RuntimeType("Garbage", false, true, [], None), c, Plain(map[]))]
  }

  lemma LossyHeapEdges()
    ensures var m := LossyHeap(); Edges(m[1]) == [2] && Edges(Anchored(m[1], 0)) == [0] && Edges(m[2]) == [] && Edges(m[3]) == []
  {
    var m := LossyHeap();
    assert References(map[], m[2].runtimeType, 0, 0) == [] && References(map[], m[3].runtimeType, 0, 0) == [];
  }

  lemma LossyHeapIsConsistent()
    ensures Consistent(LossyHeap(), 3, 0, [3, 2, 1], [1]) && IsThread(LossyHeap(), 1)
  {
    hide Edges;
    var m := LossyHeap();
    LossyHeapEdges();
    assert ClosedSet(m, {1, 2}) && ValidRefs({1, 2}, [1]);
  }

  lemma LossyHeapReach()
    ensures
      var m := LossyHeap();
      Reachable(m, [1], 2) && !Reachable(m, [1], 3) && !Reachable(WithAnchor(m, 1, 0), [1], 2)
  {
    hide Edges;
    var m := LossyHeap();
    LossyHeapEdges();
    assert 1 in [1] && Follows(m, 1, 2);
    ReachesSelf(m, 1);
    ReachesEdge(m, 1, 1, 2);
    assert !Reachable(m, [1], 3) by {
      if Reachable(m, [1], 3) { ReachesInClosed(m, {1, 2}, 1, 3); }
    }
    var o := WithAnchor(m, 1, 0);
    assert !Reachable(o, [1], 2) by {
      if Reachable(o, [1], 2) { ReachesInClosed(o, {1}, 1, 2); }
    }
  }

  /** In that heap a collection keeps the returned object, and the next one frees it. */
  lemma LossHappens(n: Memory, o: Memory, listed': seq<Addr>, f': Finalizers)
    requires IsThread(LossyHeap(), 1) && Collected(LossyHeap(), n, 1, [1], [3, 2, 1], map[])
    requires IsThread(n, 1) && Collected(n, o, 1, [1], listed', f') && 2 in listed'
    ensures Consistent(LossyHeap(), 3, 0, [3, 2, 1], [1])
    ensures Reachable(LossyHeap(), [1], 2) && 2 in n && !Reachable(n, [1], 2) && 2 !in o
  {
    hide Collected, Edges, Reachable, Consistent, IsThread;
    LossyHeapIsConsistent();
    LossyHeapReach();
    SafeGives(LossyHeap(), 3, 0, [3, 2, 1], [1]);
    assert IsFinalized(LossyHeap(), [1], [3, 2, 1], 3) && WritesAnchor(FinalizerOf(map[], 3));
    LostWithAnchor(LossyHeap(), n, o, 1, [1], [3, 2, 1], listed', map[], f', 2);
  }

  lemma SafeGives(m: Memory, begin: Addr, index: MarkIndex, listed: seq<Addr>, roots: seq<Addr>)
    requires Consistent(m, begin, index, listed, roots)
    ensures Safe(m, roots)
  {
  }
}
