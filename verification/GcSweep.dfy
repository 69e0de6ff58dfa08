/** Step 3 of the collector: the in-place sweep of the header list (IL2C.Runtime/src/Core/il2c_gc.c). */
module GcSweep {
  import opened Arithmetic
  import opened RefHeaders
  import opened GcMark

  // ---------------------------------------------------------------------------------------------
  // Linked headers

  function Head(l: seq<Addr>, tail: Addr): Addr { if l == [] then tail else l[0] }

  /** The headers of l are linked in order and the last one points to tail. */
  ghost predicate Segment(m: Memory, l: seq<Addr>, tail: Addr) {
    forall i :: 0 <= i < |l| ==> l[i] != 0 && l[i] in m && m[l[i]].pNext == Next(l, i, tail)
  }

  function Next(l: seq<Addr>, i: nat, tail: Addr): Addr {
    if i + 1 < |l| then l[i + 1] else tail
  }

  ghost predicate Distinct(l: seq<Addr>) {
    forall i, j :: 0 <= i < j < |l| ==> l[i] != l[j]
  }

  /** The header list that starts at begin. */
  ghost predicate Chain(m: Memory, begin: Addr, l: seq<Addr>) {
    begin == Head(l, 0) && Segment(m, l, 0) && Distinct(l)
  }

  // ---------------------------------------------------------------------------------------------
  // What a pass does to each header

  /** Unmarked, with a finalizer that has not been called: finalized now, collected later. */
  predicate IsPending(h: Header, index: MarkIndex) {
    IsGarbage(h.characteristic, index) && h.runtimeType.hasFinalizer && !IsFinalizerCalled(h.characteristic)
  }

  predicate IsDropped(h: Header, index: MarkIndex) {
    IsGarbage(h.characteristic, index) && !IsPending(h, index)
  }

  ghost predicate AllIn(m: Memory, l: seq<Addr>) { forall i :: 0 <= i < |l| ==> l[i] in m }

  ghost function Kept(m: Memory, index: MarkIndex, l: seq<Addr>): (r: seq<Addr>)
    requires AllIn(m, l)
  {
    if l == [] then [] else
    var n := |l| - 1;
    Kept(m, index, l[..n]) + (if IsDropped(m[l[n]], index) then [] else [l[n]])
  }

  /** Unlinked headers, last unlinked first. */
  ghost function Dropped(m: Memory, index: MarkIndex, l: seq<Addr>): (r: seq<Addr>)
    requires AllIn(m, l)
  {
    if l == [] then [] else
    var n := |l| - 1;
    (if IsDropped(m[l[n]], index) then [l[n]] else []) + Dropped(m, index, l[..n])
  }

  ghost function Pending(m: Memory, index: MarkIndex, l: seq<Addr>): (r: seq<Addr>)
    requires AllIn(m, l)
  {
    if l == [] then [] else
    var n := |l| - 1;
    Pending(m, index, l[..n]) + (if IsPending(m[l[n]], index) then [l[n]] else [])
  }

  lemma {:induction false} KeptMembers(m: Memory, index: MarkIndex, l: seq<Addr>)
    requires AllIn(m, l)
    ensures forall a :: a in Kept(m, index, l) <==> a in l && !IsDropped(m[a], index)
  {
    hide IsDropped, IsPending;
    if l != [] {
      var n := |l| - 1;
      KeptMembers(m, index, l[..n]);
      forall a ensures a in l <==> a in l[..n] || a == l[n] {}
    }
  }

  lemma {:induction false} DroppedMembers(m: Memory, index: MarkIndex, l: seq<Addr>)
    requires AllIn(m, l)
    ensures forall a :: a in Dropped(m, index, l) <==> a in l && IsDropped(m[a], index)
  {
    hide IsDropped, IsPending;
    if l != [] {
      var n := |l| - 1;
      DroppedMembers(m, index, l[..n]);
      forall a ensures a in l <==> a in l[..n] || a == l[n] {}
    }
  }

  lemma {:induction false} PendingMembers(m: Memory, index: MarkIndex, l: seq<Addr>)
    requires AllIn(m, l)
    ensures forall a :: a in Pending(m, index, l) <==> a in l && IsPending(m[a], index)
  {
    hide IsDropped, IsPending;
    if l != [] {
      var n := |l| - 1;
      PendingMembers(m, index, l[..n]);
      forall a ensures a in l <==> a in l[..n] || a == l[n] {}
    }
  }

  lemma {:induction false} KeptAndDropped(m: Memory, index: MarkIndex, l: seq<Addr>)
    requires AllIn(m, l)
    ensures |Kept(m, index, l)| + |Dropped(m, index, l)| == |l|
  {
    hide IsDropped;
    if l != [] {
      KeptAndDropped(m, index, l[..|l| - 1]);
    }
  }

  /** What a finalizer may do besides its own work: allocate objects and ask to be called again. A translated one
      returns through il2c_return or il2c_return_unlink, which clear the thread's temporary anchor; one written in C
      (System.Threading.Thread has one) does not. */
  datatype Finalizer = Finalizer(allocates: seq<RuntimeType>, reRegisters: bool, isTranslated: bool)

  type Finalizers = map<Addr, Finalizer>

  function FinalizerOf(f: Finalizers, a: Addr): Finalizer {
    if a in f then f[a] else Finalizer([], false, true)
  }

  /** The thread's anchor after the finalizers of these objects have run: the last one that wrote it counts. */
  ghost predicate AnchorLeft(f: Finalizers, finalized: seq<Addr>, added: seq<Addr>, before: Addr, after: Addr)
    decreases |finalized|
  {
    if finalized == [] then after == before else
    var last := FinalizerOf(f, finalized[|finalized| - 1]);
    if last.isTranslated then after == 0 else
    if last.allocates != [] then after in added else
    AnchorLeft(f, finalized[..|finalized| - 1], added, before, after)
  }

  lemma {:induction false} AnchorLeftGrows(f: Finalizers, finalized: seq<Addr>, added: seq<Addr>, more: seq<Addr>, before: Addr, after: Addr)
    requires AnchorLeft(f, finalized, added, before, after) && forall a :: a in added ==> a in more
    ensures AnchorLeft(f, finalized, more, before, after)
    decreases |finalized|
  {
    if finalized != [] {
      var last := FinalizerOf(f, finalized[|finalized| - 1]);
      if !last.isTranslated && last.allocates == [] {
        AnchorLeftGrows(f, finalized[..|finalized| - 1], added, more, before, after);
      }
    }
  }

  predicate WritesAnchor(f: Finalizer) { f.isTranslated || f.allocates != [] }

  /** The anchor stays exactly if no finalizer that was called writes it. */
  lemma {:induction false} AnchorLeftMeaning(f: Finalizers, finalized: seq<Addr>, added: seq<Addr>, before: Addr, after: Addr)
    requires AnchorLeft(f, finalized, added, before, after)
    ensures if exists a :: a in finalized && WritesAnchor(FinalizerOf(f, a)) then after == 0 || after in added else after == before
    decreases |finalized|
  {
    if finalized != [] {
      var n := |finalized| - 1;
      var last := FinalizerOf(f, finalized[n]);
      assert finalized[n] in finalized && forall a :: a in finalized <==> a in finalized[..n] || a == finalized[n];
      if !WritesAnchor(last) {
        AnchorLeftMeaning(f, finalized[..n], added, before, after);
      }
    }
  }

  /** Characteristic of a header after the pass. */
  function SweptCharacteristic(h: Header, index: MarkIndex, f: Finalizer): bv32 {
    if IsPending(h, index) then
      var c := FlipMark(SetFinalizerCalled(h.characteristic));
      if f.reRegisters then ClearFinalizerCalled(c) else c
    else h.characteristic
  }

  datatype Event = Finalized(a: Addr) | Freed(a: Addr)

  function FinalizedAll(l: seq<Addr>): (r: seq<Event>)
    ensures |r| == |l| && forall i :: 0 <= i < |l| ==> r[i] == Finalized(l[i])
  {
    seq(|l|, i requires 0 <= i < |l| => Finalized(l[i]))
  }

  function FreedAll(l: seq<Addr>): (r: seq<Event>)
    ensures |r| == |l| && forall i :: 0 <= i < |l| ==> r[i] == Freed(l[i])
  {
    seq(|l|, i requires 0 <= i < |l| => Freed(l[i]))
  }

  // ---------------------------------------------------------------------------------------------
  // State of a pass: kept headers, headers still to visit, and unlinked headers

  ghost predicate Lists(m: Memory, begin: Addr, kept: seq<Addr>, rest: seq<Addr>, dropped: seq<Addr>) {
    && begin == Head(kept, Head(rest, 0))
    && Segment(m, kept, Head(rest, 0)) && Segment(m, rest, 0) && Segment(m, dropped, 0)
    && Distinct(kept) && Distinct(rest) && Distinct(dropped)
    && Disjoint(kept, rest) && Disjoint(kept, dropped) && Disjoint(rest, dropped)
  }

  ghost predicate Disjoint(l: seq<Addr>, k: seq<Addr>) { forall a :: a in l ==> a !in k }

  /** An update of a header outside a segment leaves the segment alone. */
  lemma SegmentElsewhere(m: Memory, l: seq<Addr>, tail: Addr, a: Addr, h: Header)
    requires Segment(m, l, tail) && a !in l
    ensures Segment(m[a := h], l, tail)
  {
  }

  /** Redirecting the last header of a segment redirects the segment. */
  lemma SegmentRelink(m: Memory, l: seq<Addr>, tail: Addr, next: Addr)
    requires Segment(m, l, tail) && Distinct(l) && l != []
    ensures
      var k := l[|l| - 1];
      Segment(m[k := m[k].(pNext := next)], l, next)
  {
    var k := l[|l| - 1];
    var n := m[k := m[k].(pNext := next)];
    forall i | 0 <= i < |l| ensures l[i] != 0 && l[i] in n && n[l[i]].pNext == Next(l, i, next) {
      if i < |l| - 1 { assert l[i] != k; }
    }
  }

  lemma KeepOne(m: Memory, begin: Addr, kept: seq<Addr>, rest: seq<Addr>, dropped: seq<Addr>)
    requires Lists(m, begin, kept, rest, dropped) && rest != []
    ensures Lists(m, begin, kept + [rest[0]], rest[1..], dropped)
  {
    var k, r := kept + [rest[0]], rest[1..];
    assert forall i :: 0 <= i < |r| ==> r[i] == rest[i + 1];
    forall i | 0 <= i < |k| ensures k[i] != 0 && k[i] in m && m[k[i]].pNext == Next(k, i, Head(r, 0)) {
      if i < |kept| { assert k[i] == kept[i]; } else { assert k[i] == rest[0]; }
    }
    assert rest[0] in rest;
    forall i, j | 0 <= i < j < |k| ensures k[i] != k[j] {
      if j == |kept| { assert kept[i] in kept; }
    }
    forall i | 0 <= i < |r| ensures r[i] != rest[0] && r[i] in rest {}
  }

  datatype LinkCell = ListBegin | NextOf(a: Addr)

  ghost function CellOf(kept: seq<Addr>): LinkCell {
    if kept == [] then ListBegin else NextOf(kept[|kept| - 1])
  }

  /** `*ppUnlinkTarget = pNext` and the push on the list of scheduled headers. */
  lemma DropOne(m: Memory, n: Memory, o: Memory, begin: Addr, begin': Addr, kept: seq<Addr>, rest: seq<Addr>, dropped: seq<Addr>)
    requires Lists(m, begin, kept, rest, dropped) && rest != []
    requires
      var a, next := rest[0], Head(rest[1..], 0);
      && (kept == [] ==> begin' == next && n == m)
      && (kept != [] ==> begin' == begin && var k := kept[|kept| - 1]; n == m[k := m[k].(pNext := next)])
      && a in n && o == n[a := n[a].(pNext := Head(dropped, 0))]
    ensures Lists(o, begin', kept, rest[1..], [rest[0]] + dropped)
  {
    hide Segment;
    var a, tail, next := rest[0], rest[1..], Head(rest[1..], 0);
    var h := n[a].(pNext := Head(dropped, 0));
    assert a in rest && a !in kept && a !in dropped;
    TailOf(m, rest);
    if kept != [] {
      var k := kept[|kept| - 1];
      assert k in kept && k !in rest && k !in dropped;
      SegmentRelink(m, kept, a, next);
      SegmentElsewhere(m, tail, 0, k, n[k]);
      SegmentElsewhere(m, dropped, 0, k, n[k]);
    }
    assert Segment(n, kept, next) by { if kept == [] { SegmentEmpty(n, next); } }
    SegmentElsewhere(n, kept, next, a, h);
    SegmentElsewhere(n, tail, 0, a, h);
    SegmentElsewhere(n, dropped, 0, a, h);
    SegmentCons(o, a, dropped);
  }

  lemma TailOf(m: Memory, l: seq<Addr>)
    requires Segment(m, l, 0) && Distinct(l) && l != []
    ensures Segment(m, l[1..], 0) && Distinct(l[1..]) && l[0] !in l[1..]
    ensures forall a :: a in l[1..] ==> a in l
    ensures l[0] in m && m[l[0]].pNext == Head(l[1..], 0) && l[0] != 0
  {
    assert forall i :: 0 <= i < |l[1..]| ==> l[1..][i] == l[i + 1];
  }

  lemma SegmentEmpty(m: Memory, tail: Addr)
    ensures Segment(m, [], tail)
  {
  }

  lemma SegmentCons(m: Memory, a: Addr, l: seq<Addr>)
    requires Segment(m, l, 0) && Distinct(l) && a !in l && a != 0 && a in m && m[a].pNext == Head(l, 0)
    ensures Segment(m, [a] + l, 0) && Distinct([a] + l)
  {
    assert forall i :: 0 < i <= |l| ==> ([a] + l)[i] == l[i - 1];
  }

  lemma AllocateOne(m: Memory, n: Memory, begin: Addr, kept: seq<Addr>, rest: seq<Addr>, dropped: seq<Addr>, a: Addr, h: Header)
    requires Lists(m, begin, kept, rest, dropped)
    requires a != 0 && a !in m && h.pNext == begin && n == m[a := h]
    ensures Lists(n, a, [a] + kept, rest, dropped)
  {
    var k := [a] + kept;
    assert forall i :: 0 < i < |k| ==> k[i] == kept[i - 1] && kept[i - 1] in m;
    forall i | 0 <= i < |k| ensures k[i] != 0 && k[i] in n && n[k[i]].pNext == Next(k, i, Head(rest, 0)) {
      if i > 0 { assert k[i] == kept[i - 1]; }
    }
    forall i | 0 <= i < |rest| ensures rest[i] != a {}
    forall i | 0 <= i < |dropped| ensures dropped[i] != a {}
  }

  /** Only pNext matters to the lists. */
  lemma SameLinks(m: Memory, n: Memory, begin: Addr, kept: seq<Addr>, rest: seq<Addr>, dropped: seq<Addr>)
    requires Lists(m, begin, kept, rest, dropped)
    requires forall a :: a in m ==> a in n && n[a].pNext == m[a].pNext
    ensures Lists(n, begin, kept, rest, dropped)
  {
  }

  // ---------------------------------------------------------------------------------------------
  // Contents of memory during a pass

  /** An object allocated by a finalizer during the pass: initialized, marked and without references. */
  ghost predicate IsFresh(h: Header, index: MarkIndex, f: Finalizers) {
    && IsInitialized(h.characteristic) && IsMarked(h.characteristic, index) && !IsConst(h.characteristic)
    && h.body == Plain(map[]) && h.runtimeType in AllocatedTypes(f)
  }

  ghost function AllocatedTypes(f: Finalizers): set<RuntimeType> {
    set a, t | a in f && t in f[a].allocates :: t
  }

  /** m is m0 after the headers in `done` have been visited, none of them freed yet. */
  ghost predicate Contents(m0: Memory, m: Memory, index: MarkIndex, f: Finalizers, listed: seq<Addr>, done: seq<Addr>,
                           added: seq<Addr>)
  {
    && (forall a :: a in m <==> a in m0 || a in added)
    && (forall a :: a in added ==> a !in m0 && a != 0)
    && (forall a :: a in added && a in m ==> IsFresh(m[a], index, f))
    && (forall a :: a in m0 && a in m ==>
          && m[a].runtimeType == m0[a].runtimeType && m[a].body == m0[a].body
          && m[a].characteristic ==
             (if a in done then SweptCharacteristic(m0[a], index, FinalizerOf(f, a)) else m0[a].characteristic)
          && (a !in listed ==> m[a].pNext == m0[a].pNext))
  }

  lemma ContentsRelink(m0: Memory, m: Memory, n: Memory, index: MarkIndex, f: Finalizers, listed: seq<Addr>, done: seq<Addr>,
                       added: seq<Addr>, a: Addr, next: Addr)
    requires Contents(m0, m, index, f, listed, done, added) && a in m && (a in listed || a in added)
    requires n == m[a := m[a].(pNext := next)]
    ensures Contents(m0, n, index, f, listed, done, added)
  {
  }

  lemma ContentsVisit(m0: Memory, m: Memory, n: Memory, index: MarkIndex, f: Finalizers, listed: seq<Addr>, done: seq<Addr>,
                      added: seq<Addr>, a: Addr)
    requires Contents(m0, m, index, f, listed, done, added) && a in m0 && a in m && a !in done
    requires n == m[a := m[a].(characteristic := SweptCharacteristic(m0[a], index, FinalizerOf(f, a)))]
    ensures Contents(m0, n, index, f, listed, done + [a], added)
  {
    hide SweptCharacteristic, FinalizerOf, IsFresh;
    var now := done + [a];
    forall x ensures x in now <==> x in done || x == a {}
    forall x | x in m0 && x in n
      ensures n[x].runtimeType == m0[x].runtimeType && n[x].body == m0[x].body
      ensures n[x].characteristic == (if x in now then SweptCharacteristic(m0[x], index, FinalizerOf(f, x)) else m0[x].characteristic)
      ensures x !in listed ==> n[x].pNext == m0[x].pNext
    {
      if x != a { assert n[x] == m[x]; }
    }
  }

  lemma ContentsAllocate(m0: Memory, m: Memory, n: Memory, index: MarkIndex, f: Finalizers, listed: seq<Addr>, done: seq<Addr>,
                         added: seq<Addr>, a: Addr, h: Header)
    requires Contents(m0, m, index, f, listed, done, added) && a != 0 && a !in m && IsFresh(h, index, f)
    requires n == m[a := h]
    ensures Contents(m0, n, index, f, listed, done, [a] + added)
  {
    hide SweptCharacteristic;
    forall x ensures x in [a] + added <==> x in added || x == a {}
  }

  // ---------------------------------------------------------------------------------------------
  // Allocation

  lemma FreshAddressExists(m: Memory) returns (a: Addr)
    ensures a != 0 && a !in m
  {
    a := Above(m.Keys);
  }

  /** malloc: some address that is not in use. Nothing else is promised, addresses of freed objects included. */
  method Malloc(heap: Heap) returns (a: Addr)
    ensures a != 0 && a !in heap.memory
  {
    ghost var unused := FreshAddressExists(heap.memory);
    a :| a != 0 && a !in heap.memory;
  }

  /** Links a new, cleared and initialized header at the head of the list. */
  method LinkHeader(heap: Heap, t: RuntimeType, body: Body) returns (a: Addr)
    modifies heap`memory, heap`pBeginHeader
    ensures a != 0 && a !in old(heap.memory)
    ensures heap.pBeginHeader == a
    ensures heap.memory == old(heap.memory)[a := Header(old(heap.pBeginHeader), t, NewCharacteristic(heap.collectionMarkIndex), body)]
  {
    a := Malloc(heap);
    var pNext := heap.pBeginHeader;
    heap.memory := heap.memory[a := Header(pNext, t, 0, body)];
    heap.pBeginHeader := a;
    heap.memory := heap.memory[a := heap.memory[a].(characteristic := NewCharacteristic(heap.collectionMarkIndex))];
  }

  // ---------------------------------------------------------------------------------------------
  // The pass

  /** Loop invariant: headers up to i have been visited. */
  ghost predicate Visited(m0: Memory, m: Memory, begin: Addr, index: MarkIndex, f: Finalizers, listed: seq<Addr>, i: nat,
                          added: seq<Addr>)
    requires i <= |listed| && AllIn(m0, listed)
  {
    && Lists(m, begin, added + Kept(m0, index, listed[..i]), listed[i..], Dropped(m0, index, listed[..i]))
    && Contents(m0, m, index, f, listed, listed[..i], added)
    && (Kept(m0, index, listed[..i]) == [] ==> added == [])
  }

  /** What one finalizer makes of the anchor. */
  ghost predicate AnchorStep(f: Finalizer, before: seq<Addr>, added: seq<Addr>, anchor: Addr, anchor': Addr) {
    && (forall x :: x in before ==> x in added)
    && if f.isTranslated then anchor' == 0 else if f.allocates != [] then anchor' in added else anchor' == anchor
  }

  lemma {:induction false} AnchorAtBegin(f: Finalizers, anchor: Addr)
    ensures AnchorLeft(f, [], [], anchor, anchor)
  {
  }

  lemma {:induction false} AnchorLeftStep(f: Finalizers, finalized: seq<Addr>, a: Addr, before: seq<Addr>, added: seq<Addr>, start: Addr, anchor: Addr, anchor': Addr)
    requires AnchorLeft(f, finalized, before, start, anchor) && AnchorStep(FinalizerOf(f, a), before, added, anchor, anchor')
    ensures AnchorLeft(f, finalized + [a], added, start, anchor')
  {
    assert (finalized + [a])[..|finalized|] == finalized;
    AnchorLeftGrows(f, finalized, before, added, start, anchor);
  }

  /** The rest of a finalizer's run: its allocations, each anchored in the thread context, and its return. The anchor is
      handed through the pass, in which nothing reads it. */
  method CallFinalizer(heap: Heap, a: Addr, f: Finalizer, anchor: Addr, ghost m0: Memory, ghost fs: Finalizers, ghost listed: seq<Addr>,
                       ghost done: seq<Addr>, ghost kept: seq<Addr>, ghost rest: seq<Addr>, ghost dropped: seq<Addr>,
                       ghost before: seq<Addr>)
    returns (anchor': Addr, ghost added: seq<Addr>)
    requires Lists(heap.memory, heap.pBeginHeader, before + kept, rest, dropped)
    requires Contents(m0, heap.memory, heap.collectionMarkIndex, fs, listed, done, before)
    requires forall t :: t in f.allocates ==> t in AllocatedTypes(fs)
    modifies heap`memory, heap`pBeginHeader
    ensures Lists(heap.memory, heap.pBeginHeader, added + kept, rest, dropped)
    ensures Contents(m0, heap.memory, heap.collectionMarkIndex, fs, listed, done, added)
    ensures a in old(heap.memory) ==> a in heap.memory && heap.memory[a] == old(heap.memory)[a]
    ensures f.allocates == [] ==> added == before
    ensures AnchorStep(f, before, added, anchor, anchor')
  {
    hide Lists, Contents, AllocatedTypes;
    added, anchor' := before, anchor;
    var n := 0;
    while n < |f.allocates|
      invariant 0 <= n <= |f.allocates| 
      invariant if n == 0 then added == before && anchor' == anchor else anchor' in added
      invariant forall x :: x in before ==> x in added
      invariant Lists(heap.memory, heap.pBeginHeader, added + kept, rest, dropped)
      invariant Contents(m0, heap.memory, heap.collectionMarkIndex, fs, listed, done, added)
      invariant a in old(heap.memory) ==> a in heap.memory && heap.memory[a] == old(heap.memory)[a]
    {
      ghost var m, begin := heap.memory, heap.pBeginHeader;
      var b := LinkHeader(heap, f.allocates[n], Plain(map[]));
      AllocateOne(m, heap.memory, begin, added + kept, rest, dropped, b, heap.memory[b]);
      ContentsAllocate(m0, m, heap.memory, heap.collectionMarkIndex, fs, listed, done, added, b, heap.memory[b]);
      assert [b] + (added + kept) == ([b] + added) + kept;
      added := [b] + added;
      anchor' := b;
      n := n + 1;
    }
    if f.isTranslated { anchor' := 0; }
  }

  lemma {:induction false} VisitedParts(m0: Memory, index: MarkIndex, listed: seq<Addr>, i: nat)
    requires i < |listed| && AllIn(m0, listed)
    ensures listed[..i + 1] == listed[..i] + [listed[i]] && listed[i..][1..] == listed[i + 1..]
    ensures IsDropped(m0[listed[i]], index) ==>
              && Kept(m0, index, listed[..i + 1]) == Kept(m0, index, listed[..i])
              && Dropped(m0, index, listed[..i + 1]) == [listed[i]] + Dropped(m0, index, listed[..i])
    ensures !IsDropped(m0[listed[i]], index) ==>
              && Kept(m0, index, listed[..i + 1]) == Kept(m0, index, listed[..i]) + [listed[i]]
              && Dropped(m0, index, listed[..i + 1]) == Dropped(m0, index, listed[..i])
    ensures Pending(m0, index, listed[..i + 1]) ==
            if IsPending(m0[listed[i]], index) then Pending(m0, index, listed[..i]) + [listed[i]]
            else Pending(m0, index, listed[..i])
  {
    hide IsDropped, IsPending;
    assert listed[..i + 1][..i] == listed[..i];
  }

  /** The header under visit: still as it was when the pass began, and not visited before. */
  lemma Current(m0: Memory, m: Memory, begin: Addr, index: MarkIndex, f: Finalizers, listed: seq<Addr>, i: nat, added: seq<Addr>)
    requires i < |listed| && AllIn(m0, listed) && Distinct(listed)
    requires Visited(m0, m, begin, index, f, listed, i, added)
    ensures
      var a := listed[i];
      && a in m && a != 0 && a !in listed[..i] && a in listed && a in m0
      && m[a].characteristic == m0[a].characteristic && m[a].runtimeType == m0[a].runtimeType
      && m[a].pNext == Head(listed[i + 1..], 0)
  {
    hide SweptCharacteristic;
    assert listed[i..][0] == listed[i];
    TailOf(m, listed[i..]);
    assert listed[i..][1..] == listed[i + 1..];
  }

  /** First time unmarked and finalizable: mark it again, call the finalizer and keep it linked. */
  method VisitPending(heap: Heap, a: Addr, f: Finalizers, anchor: Addr, ghost m0: Memory, ghost listed: seq<Addr>, ghost i: nat,
                      ghost before: seq<Addr>)
    returns (anchor': Addr, ghost added: seq<Addr>)
    requires i < |listed| && AllIn(m0, listed) && Distinct(listed) && a == listed[i]
    requires Visited(m0, heap.memory, heap.pBeginHeader, heap.collectionMarkIndex, f, listed, i, before)
    requires a in heap.memory && IsPending(m0[a], heap.collectionMarkIndex)
    modifies heap`memory, heap`pBeginHeader
    ensures Visited(m0, heap.memory, heap.pBeginHeader, heap.collectionMarkIndex, f, listed, i + 1, added)
    ensures FinalizerOf(f, a).allocates == [] ==> added == before
    ensures AnchorStep(FinalizerOf(f, a), before, added, anchor, anchor')
  {
    hide Lists, Contents, Visited, Kept, Dropped, IsPending, IsDropped, SweptCharacteristic, FinalizerOf, AllocatedTypes;
    ghost var index, m, begin := heap.collectionMarkIndex, heap.memory, heap.pBeginHeader;
    ghost var kept, rest, dropped := Kept(m0, index, listed[..i]), listed[i..], Dropped(m0, index, listed[..i]);
    Current(m0, m, begin, index, f, listed, i, before);
    VisitedParts(m0, index, listed, i);
    assert Lists(m, begin, before + kept, rest, dropped) && Contents(m0, m, index, f, listed, listed[..i], before)
      by { VisitedMeans(m0, m, begin, index, f, listed, i, before); }
    heap.memory := heap.memory[a := heap.memory[a].(characteristic := SetFinalizerCalled(heap.memory[a].characteristic))];
    heap.memory := heap.memory[a := heap.memory[a].(characteristic := FlipMark(heap.memory[a].characteristic))];
    var finalizer := FinalizerOf(f, a);
    if finalizer.reRegisters {
      heap.memory := heap.memory[a := heap.memory[a].(characteristic := ClearFinalizerCalled(heap.memory[a].characteristic))];
    }
    PendingNotDropped(m0[a], index);
    SweptOfPending(m0[a], index, finalizer);
    assert heap.memory == m[a := m[a].(characteristic := SweptCharacteristic(m0[a], index, finalizer))];
    ContentsVisit(m0, m, heap.memory, index, f, listed, listed[..i], before, a);
    SameLinks(m, heap.memory, begin, before + kept, rest, dropped);
    KeepOne(heap.memory, begin, before + kept, rest, dropped);
    assert (before + kept) + [rest[0]] == before + (kept + [a]);
    FinalizerTypes(f, a);
    anchor', added := CallFinalizer(heap, a, finalizer, anchor, m0, f, listed, listed[..i + 1], kept + [a], rest[1..], dropped, before);
    VisitedIf(m0, heap.memory, heap.pBeginHeader, index, f, listed, i + 1, added);
  }

  lemma FinalizerTypes(f: Finalizers, a: Addr)
    ensures forall t :: t in FinalizerOf(f, a).allocates ==> t in AllocatedTypes(f)
  {
  }

  lemma SweptOfPending(h: Header, index: MarkIndex, f: Finalizer)
    requires IsPending(h, index)
    ensures SweptCharacteristic(h, index, f) ==
            var c := FlipMark(SetFinalizerCalled(h.characteristic));
            if f.reRegisters then ClearFinalizerCalled(c) else c
  {
  }

  lemma PendingNotDropped(h: Header, index: MarkIndex)
    requires IsPending(h, index)
    ensures !IsDropped(h, index)
  {
  }

  lemma DroppedNotPending(h: Header, index: MarkIndex)
    requires IsDropped(h, index)
    ensures !IsPending(h, index)
  {
  }

  lemma {:induction false} VisitedMeans(m0: Memory, m: Memory, begin: Addr, index: MarkIndex, f: Finalizers, listed: seq<Addr>, i: nat, added: seq<Addr>)
    requires i <= |listed| && AllIn(m0, listed) && Visited(m0, m, begin, index, f, listed, i, added)
    ensures Lists(m, begin, added + Kept(m0, index, listed[..i]), listed[i..], Dropped(m0, index, listed[..i]))
    ensures Contents(m0, m, index, f, listed, listed[..i], added)
    ensures Kept(m0, index, listed[..i]) == [] ==> added == []
  {
  }

  lemma {:induction false} VisitedIf(m0: Memory, m: Memory, begin: Addr, index: MarkIndex, f: Finalizers, listed: seq<Addr>, i: nat, added: seq<Addr>)
    requires i <= |listed| && AllIn(m0, listed)
    requires Lists(m, begin, added + Kept(m0, index, listed[..i]), listed[i..], Dropped(m0, index, listed[..i]))
    requires Contents(m0, m, index, f, listed, listed[..i], added)
    requires Kept(m0, index, listed[..i]) == [] ==> added == []
    ensures Visited(m0, m, begin, index, f, listed, i, added)
  {
  }

  /** Contents do not care how a header that keeps its characteristic is classified. */
  lemma ContentsSkip(m0: Memory, m: Memory, index: MarkIndex, f: Finalizers, listed: seq<Addr>, done: seq<Addr>,
                     added: seq<Addr>, a: Addr)
    requires Contents(m0, m, index, f, listed, done, added) && a in m0 && !IsPending(m0[a], index)
    ensures Contents(m0, m, index, f, listed, done + [a], added)
  {
    hide IsPending;
    forall x ensures x in done + [a] <==> x in done || x == a {}
  }

  /** Marked (or not initialized): stays linked. */
  lemma VisitKept(m0: Memory, m: Memory, begin: Addr, index: MarkIndex, f: Finalizers, listed: seq<Addr>, i: nat, added: seq<Addr>)
    requires i < |listed| && AllIn(m0, listed) && Distinct(listed)
    requires Visited(m0, m, begin, index, f, listed, i, added)
    requires !IsPending(m0[listed[i]], index) && !IsDropped(m0[listed[i]], index)
    ensures Visited(m0, m, begin, index, f, listed, i + 1, added)
  {
    hide Lists, Contents, Visited, Kept, Dropped, IsPending, IsDropped;
    ghost var kept, rest, dropped := Kept(m0, index, listed[..i]), listed[i..], Dropped(m0, index, listed[..i]);
    VisitedParts(m0, index, listed, i);
    VisitedMeans(m0, m, begin, index, f, listed, i, added);
    KeepOne(m, begin, added + kept, rest, dropped);
    ContentsSkip(m0, m, index, f, listed, listed[..i], added, listed[i]);
    assert (added + kept) + [rest[0]] == added + (kept + [listed[i]]);
    VisitedIf(m0, m, begin, index, f, listed, i + 1, added);
  }

  /** The two writes that unlink a header through the link cell and schedule it. */
  lemma {:induction false} DropStep(m0: Memory, m: Memory, n: Memory, o: Memory, begin: Addr, begin': Addr, index: MarkIndex, f: Finalizers,
                 listed: seq<Addr>, i: nat, added: seq<Addr>, cell: LinkCell)
    requires i < |listed| && AllIn(m0, listed) && Distinct(listed)
    requires Visited(m0, m, begin, index, f, listed, i, added) && IsDropped(m0[listed[i]], index)
    requires cell == CellOf(Kept(m0, index, listed[..i])) && listed[i] in m
    requires cell.ListBegin? ==> begin' == m[listed[i]].pNext && n == m
    requires cell.NextOf? ==> cell.a in m && begin' == begin && n == m[cell.a := m[cell.a].(pNext := m[listed[i]].pNext)]
    requires listed[i] in n && o == n[listed[i] := n[listed[i]].(pNext := Head(Dropped(m0, index, listed[..i]), 0))]
    ensures Visited(m0, o, begin', index, f, listed, i + 1, added)
  {
    hide Lists, Contents, Visited, Kept, Dropped, IsPending, IsDropped, SweptCharacteristic, Segment;
    var a := listed[i];
    var kept, rest, dropped := Kept(m0, index, listed[..i]), listed[i..], Dropped(m0, index, listed[..i]);
    Current(m0, m, begin, index, f, listed, i, added);
    VisitedParts(m0, index, listed, i);
    VisitedMeans(m0, m, begin, index, f, listed, i, added);
    assert cell.NextOf? ==> (added + kept)[|added + kept| - 1] == cell.a;
    DropOne(m, n, o, begin, begin', added + kept, rest, dropped);
    DropContents(m0, m, n, o, index, f, listed, i, added, cell);
    VisitedIf(m0, o, begin', index, f, listed, i + 1, added);
  }

  lemma {:induction false} DropContents(m0: Memory, m: Memory, n: Memory, o: Memory, index: MarkIndex, f: Finalizers, listed: seq<Addr>, i: nat,
                     added: seq<Addr>, cell: LinkCell)
    requires i < |listed| && AllIn(m0, listed) && IsDropped(m0[listed[i]], index)
    requires Contents(m0, m, index, f, listed, listed[..i], added)
    requires cell == CellOf(Kept(m0, index, listed[..i])) && listed[i] in m
    requires cell.ListBegin? ==> n == m
    requires cell.NextOf? ==> cell.a in m && n == m[cell.a := m[cell.a].(pNext := m[listed[i]].pNext)]
    requires listed[i] in n && o == n[listed[i] := n[listed[i]].(pNext := Head(Dropped(m0, index, listed[..i]), 0))]
    ensures Contents(m0, o, index, f, listed, listed[..i + 1], added)
  {
    hide Contents, Kept, Dropped, IsPending, IsDropped;
    var a := listed[i];
    DroppedNotPending(m0[a], index);
    if cell.NextOf? {
      assert cell.a in Kept(m0, index, listed[..i]);
      KeptListed(m0, index, listed, i, cell.a);
      ContentsRelink(m0, m, n, index, f, listed, listed[..i], added, cell.a, m[a].pNext);
    }
    ContentsRelink(m0, n, o, index, f, listed, listed[..i], added, a, Head(Dropped(m0, index, listed[..i]), 0));
    ContentsSkip(m0, o, index, f, listed, listed[..i], added, a);
    assert listed[..i + 1] == listed[..i] + [a];
  }

  /** Garbage: unlinked through the link cell and put on the list of scheduled headers. */
  method VisitDropped(heap: Heap, a: Addr, cell: LinkCell, scheduled: Addr, f: Finalizers, ghost m0: Memory, ghost listed: seq<Addr>,
                      ghost i: nat, ghost added: seq<Addr>)
    requires i < |listed| && AllIn(m0, listed) && Distinct(listed) && a == listed[i]
    requires Visited(m0, heap.memory, heap.pBeginHeader, heap.collectionMarkIndex, f, listed, i, added)
    requires a in heap.memory && IsDropped(m0[a], heap.collectionMarkIndex)
    requires cell == CellOf(Kept(m0, heap.collectionMarkIndex, listed[..i]))
    requires cell.NextOf? ==> cell.a in heap.memory
    requires scheduled == Head(Dropped(m0, heap.collectionMarkIndex, listed[..i]), 0)
    modifies heap`memory, heap`pBeginHeader
    ensures Visited(m0, heap.memory, heap.pBeginHeader, heap.collectionMarkIndex, f, listed, i + 1, added)
  {
    hide Lists, Contents, Visited, Kept, Dropped, IsPending, IsDropped;
    var pNext := heap.memory[a].pNext;
    match cell {
      case ListBegin => heap.pBeginHeader := pNext;
      case NextOf(k) => heap.memory := heap.memory[k := heap.memory[k].(pNext := pNext)];
    }
    ghost var n := heap.memory;
    heap.memory := heap.memory[a := heap.memory[a].(pNext := scheduled)];
    DropStep(m0, old(heap.memory), n, heap.memory, old(heap.pBeginHeader), heap.pBeginHeader, heap.collectionMarkIndex, f,
             listed, i, added, cell);
  }

  lemma {:induction false} KeptListed(m0: Memory, index: MarkIndex, listed: seq<Addr>, i: nat, a: Addr)
    requires i <= |listed| && AllIn(m0, listed) && a in Kept(m0, index, listed[..i])
    ensures a in listed
  {
    hide IsDropped, Kept;
    KeptMembers(m0, index, listed[..i]);
  }

  /** The result of a pass: the list keeps its order, exactly the dropped headers are gone from memory, finalized
      headers carry the current mark, and the finalizers' new objects are linked in front. */
  ghost predicate Swept(m0: Memory, m: Memory, begin: Addr, index: MarkIndex, f: Finalizers, listed: seq<Addr>, added: seq<Addr>)
    requires AllIn(m0, listed)
  {
    && Chain(m, begin, added + Kept(m0, index, listed))
    && (forall a :: a in m <==> (a in m0 && a !in Dropped(m0, index, listed)) || a in added)
    && (forall a :: a in added ==> a !in m0 && a != 0)
    && (forall a :: a in added && a in m ==> IsFresh(m[a], index, f))
    && (forall a :: a in m0 && a in m ==>
          && m[a].runtimeType == m0[a].runtimeType && m[a].body == m0[a].body
          && m[a].characteristic ==
             (if a in listed then SweptCharacteristic(m0[a], index, FinalizerOf(f, a)) else m0[a].characteristic))
  }

  ghost predicate NoAllocations(f: Finalizers) { forall a :: a in f ==> f[a].allocates == [] }

  /** One turn of the loop. */
  method VisitOne(heap: Heap, a: Addr, cell: LinkCell, scheduled: Addr, f: Finalizers, anchor: Addr, ghost m0: Memory,
                  ghost listed: seq<Addr>, ghost i: nat, ghost before: seq<Addr>)
    returns (finalized: bool, dropped: bool, anchor': Addr, ghost added: seq<Addr>)
    requires i < |listed| && AllIn(m0, listed) && Distinct(listed) && a == listed[i] && a in heap.memory
    requires Visited(m0, heap.memory, heap.pBeginHeader, heap.collectionMarkIndex, f, listed, i, before)
    requires cell == CellOf(Kept(m0, heap.collectionMarkIndex, listed[..i])) && (cell.NextOf? ==> cell.a in heap.memory)
    requires scheduled == Head(Dropped(m0, heap.collectionMarkIndex, listed[..i]), 0)
    modifies heap`memory, heap`pBeginHeader
    ensures Visited(m0, heap.memory, heap.pBeginHeader, heap.collectionMarkIndex, f, listed, i + 1, added)
    ensures finalized <==> IsPending(m0[a], heap.collectionMarkIndex)
    ensures dropped <==> IsDropped(m0[a], heap.collectionMarkIndex)
    ensures forall x :: x in m0 ==> x in heap.memory
    ensures FinalizerOf(f, a).allocates == [] || !finalized ==> added == before
    ensures if finalized then AnchorStep(FinalizerOf(f, a), before, added, anchor, anchor') else anchor' == anchor
  {
    hide Lists, Contents, Visited, Kept, Dropped, Pending, IsPending, IsDropped, Segment, IsGarbage;
    Current(m0, heap.memory, heap.pBeginHeader, heap.collectionMarkIndex, f, listed, i, before);
    var header := heap.memory[a];
    SameClass(m0[a], header, heap.collectionMarkIndex);
    finalized, dropped, anchor', added := false, false, anchor, before;
    if IsGarbage(header.characteristic, heap.collectionMarkIndex) {
      if IsPending(header, heap.collectionMarkIndex) {
        finalized := true;
        anchor', added := VisitPending(heap, a, f, anchor, m0, listed, i, before);
      } else {
        dropped := true;
        VisitDropped(heap, a, cell, scheduled, f, m0, listed, i, before);
      }
    } else {
      VisitKept(m0, heap.memory, heap.pBeginHeader, heap.collectionMarkIndex, f, listed, i, before);
    }
    VisitedKeys(m0, heap.memory, heap.pBeginHeader, heap.collectionMarkIndex, f, listed, i + 1, added);
  }

  /** Visits every header once, calling finalizers and unlinking garbage, and only then frees. */
  method Step3Sweep(heap: Heap, f: Finalizers, anchor: Addr, ghost listed: seq<Addr>)
    returns (remains: nat, anchor': Addr, ghost added: seq<Addr>, ghost events: seq<Event>)
    requires Chain(heap.memory, heap.pBeginHeader, listed)
    modifies heap`memory, heap`pBeginHeader, heap`pendingRemains
    ensures AllIn(old(heap.memory), listed)
    ensures Swept(old(heap.memory), heap.memory, heap.pBeginHeader, heap.collectionMarkIndex, f, listed, added)
    ensures remains == |Kept(old(heap.memory), heap.collectionMarkIndex, listed)|
    ensures heap.pendingRemains == |Pending(old(heap.memory), heap.collectionMarkIndex, listed)|
    ensures events == FinalizedAll(Pending(old(heap.memory), heap.collectionMarkIndex, listed)) +
                      FreedAll(Dropped(old(heap.memory), heap.collectionMarkIndex, listed))
    ensures NoAllocations(f) || Pending(old(heap.memory), heap.collectionMarkIndex, listed) == [] ==> added == []
    ensures AnchorLeft(f, Pending(old(heap.memory), heap.collectionMarkIndex, listed), added, anchor, anchor')
  {
    hide Lists, Contents, Visited, Kept, Dropped, Pending, IsPending, IsDropped, Segment, Swept, AnchorLeft, AnchorStep;
    ghost var m0, index := heap.memory, heap.collectionMarkIndex;
    ChainAllIn(m0, heap.pBeginHeader, listed);
    heap.pendingRemains := 0;
    remains, anchor', added, events := 0, anchor, [], [];
    var cell := ListBegin;
    var current, scheduled := heap.pBeginHeader, 0;
    ghost var i := 0;
    Begin(m0, heap.pBeginHeader, index, f, listed);
    AnchorAtBegin(f, anchor);
    while current != 0
      invariant i <= |listed| && current == Head(listed[i..], 0)
      invariant Visited(m0, heap.memory, heap.pBeginHeader, index, f, listed, i, added)
      invariant cell == CellOf(Kept(m0, index, listed[..i])) && (cell.NextOf? ==> cell.a in m0 && cell.a in heap.memory)
      invariant scheduled == Head(Dropped(m0, index, listed[..i]), 0)
      invariant remains == |Kept(m0, index, listed[..i])|
      invariant heap.pendingRemains == |Pending(m0, index, listed[..i])|
      invariant events == FinalizedAll(Pending(m0, index, listed[..i]))
      invariant NoAllocations(f) || Pending(m0, index, listed[..i]) == [] ==> added == []
      invariant AnchorLeft(f, Pending(m0, index, listed[..i]), added, anchor, anchor')
      invariant current != 0 ==> i < |listed|
      decreases |listed| - i
    {
      Current(m0, heap.memory, heap.pBeginHeader, index, f, listed, i, added);
      VisitedParts(m0, index, listed, i);
      var pNext := heap.memory[current].pNext;
      var finalized, dropped;
      ghost var before, start := added, anchor';
      finalized, dropped, anchor', added := VisitOne(heap, current, cell, scheduled, f, anchor', m0, listed, i, added);
      if finalized {
        AnchorLeftStep(f, Pending(m0, index, listed[..i]), current, before, added, anchor, start, anchor');
        events := events + [Finalized(current)];
        heap.pendingRemains := heap.pendingRemains + 1;
      }
      if dropped {
        scheduled := current;
      } else {
        remains := remains + 1;
        cell := NextOf(current);
      }
      current := pNext;
      i := i + 1;
    }
    assert i == |listed| by { HeadZero(listed, i); }
    assert listed[..i] == listed && listed[i..] == [];
    ghost var dropped := Dropped(m0, index, listed);
    ghost var swept := heap.memory;
    VisitedMeans(m0, heap.memory, heap.pBeginHeader, index, f, listed, i, added);
    ghost var freed := FreeScheduled(heap, scheduled, added + Kept(m0, index, listed), dropped);
    events := events + freed;
    SweptAtEnd(m0, swept, heap.memory, heap.pBeginHeader, index, f, listed, added);
  }

  /** Frees the scheduled headers one after another. */
  method FreeScheduled(heap: Heap, first: Addr, ghost kept: seq<Addr>, ghost dropped: seq<Addr>) returns (ghost events: seq<Event>)
    requires Lists(heap.memory, heap.pBeginHeader, kept, [], dropped) && first == Head(dropped, 0)
    modifies heap`memory
    ensures forall a :: a in heap.memory <==> a in old(heap.memory) && a !in dropped
    ensures forall a :: a in heap.memory ==> heap.memory[a] == old(heap.memory)[a]
    ensures events == FreedAll(dropped)
  {
    var scheduled := first;
    ghost var i := 0;
    events := [];
    while scheduled != 0
      invariant i <= |dropped| && scheduled == Head(dropped[i..], 0)
      invariant forall a :: a in heap.memory <==> a in old(heap.memory) && a !in dropped[..i]
      invariant forall a :: a in heap.memory ==> heap.memory[a] == old(heap.memory)[a]
      invariant events == FreedAll(dropped[..i])
      decreases |dropped| - i
    {
      assert scheduled == dropped[i] && dropped[i] !in dropped[..i];
      assert dropped[..i + 1] == dropped[..i] + [dropped[i]];
      assert Next(dropped, i, 0) == Head(dropped[i + 1..], 0);
      var pNext := heap.memory[scheduled].pNext;
      heap.memory := heap.memory - {scheduled};
      events := events + [Freed(scheduled)];
      scheduled := pNext;
      i := i + 1;
    }
    HeadZero(dropped, i);
    assert dropped[..i] == dropped;
  }

  lemma HeadZero(l: seq<Addr>, i: nat)
    requires i <= |l| && Head(l[i..], 0) == 0 && (forall j :: 0 <= j < |l| ==> l[j] != 0)
    ensures i == |l|
  {
  }

  lemma ChainAllIn(m: Memory, begin: Addr, l: seq<Addr>)
    requires Chain(m, begin, l)
    ensures AllIn(m, l) && Distinct(l) && Segment(m, l, 0) && begin == Head(l, 0)
    ensures forall j :: 0 <= j < |l| ==> l[j] != 0
  {
  }

  lemma {:induction false} Begin(m0: Memory, begin: Addr, index: MarkIndex, f: Finalizers, listed: seq<Addr>)
    requires Chain(m0, begin, listed) && AllIn(m0, listed)
    ensures listed[..0] == [] && listed[0..] == listed
    ensures Kept(m0, index, listed[..0]) == [] && Dropped(m0, index, listed[..0]) == [] && Pending(m0, index, listed[..0]) == []
    ensures Visited(m0, m0, begin, index, f, listed, 0, [])
  {
    assert [] + [] + listed == listed;
  }

  /** A header is classified by its characteristic and type. */
  lemma SameClass(g: Header, h: Header, index: MarkIndex)
    requires g.characteristic == h.characteristic && g.runtimeType == h.runtimeType
    ensures IsPending(g, index) == IsPending(h, index) && IsDropped(g, index) == IsDropped(h, index)
    ensures IsPending(h, index) ==> IsGarbage(h.characteristic, index) && !IsDropped(h, index)
    ensures IsGarbage(h.characteristic, index) && !IsPending(h, index) ==> IsDropped(h, index)
    ensures !IsGarbage(h.characteristic, index) ==> !IsDropped(h, index) && !IsPending(h, index)
  {
  }

  /** No header has been freed yet. */
  lemma VisitedKeys(m0: Memory, m: Memory, begin: Addr, index: MarkIndex, f: Finalizers, listed: seq<Addr>, i: nat, added: seq<Addr>)
    requires i <= |listed| && AllIn(m0, listed) && Visited(m0, m, begin, index, f, listed, i, added)
    ensures forall a :: a in m0 ==> a in m
  {
    hide Lists, Kept, Dropped, IsFresh, SweptCharacteristic;
  }

  lemma {:induction false} SweptAtEnd(m0: Memory, m: Memory, n: Memory, begin: Addr, index: MarkIndex, f: Finalizers, listed: seq<Addr>, added: seq<Addr>)
    requires AllIn(m0, listed)
    requires Lists(m, begin, added + Kept(m0, index, listed), [], Dropped(m0, index, listed))
    requires Contents(m0, m, index, f, listed, listed, added)
    requires forall a :: a in n <==> a in m && a !in Dropped(m0, index, listed)
    requires forall a :: a in n ==> n[a] == m[a]
    ensures Swept(m0, n, begin, index, f, listed, added)
  {
    hide Kept, Dropped, IsFresh, SweptCharacteristic, FinalizerOf, Lists, Chain;
    ChainAtEnd(m, n, begin, added + Kept(m0, index, listed), Dropped(m0, index, listed));
    DroppedListed(m0, index, listed);
  }

  lemma {:induction false} DroppedListed(m0: Memory, index: MarkIndex, listed: seq<Addr>)
    requires AllIn(m0, listed)
    ensures forall a :: a in Dropped(m0, index, listed) ==> a in m0
  {
    hide IsDropped, Dropped;
    DroppedMembers(m0, index, listed);
  }

  lemma ChainAtEnd(m: Memory, n: Memory, begin: Addr, kept: seq<Addr>, dropped: seq<Addr>)
    requires Lists(m, begin, kept, [], dropped)
    requires forall a :: a in n <==> a in m && a !in dropped
    requires forall a :: a in n ==> n[a] == m[a]
    ensures Chain(n, begin, kept)
  {
    forall i | 0 <= i < |kept| ensures kept[i] in n { assert kept[i] in kept; }
  }
}
