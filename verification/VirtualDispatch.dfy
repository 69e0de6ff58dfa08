/** Virtual slots, vtable layout, vtable contents and call sites over one line of single inheritance
    (IL2C.Core/Metadata/MetadataUtilities.cs, IL2C.Core/Metadata/TypeInformation.cs, IL2C.Core/Writers/TypeWriter.cs,
    IL2C.Core/Writers/TypeHelperWriter.cs, IL2C.Core/ILConveters/CallConverters.cs). Methods are named by their
    position in the list of all methods, base types first; a derived type's list extends its base type's. */
module VirtualDispatch {
  import opened Ascending

  datatype Method = Method(functionName: string, fullName: string, isVirtual: bool, isNewSlot: bool, isVisible: bool)

  /** All methods of a type, base types first. */
  function AllMethods(types: seq<seq<Method>>): seq<Method> {
    if types == [] then [] else AllMethods(types[..|types| - 1]) + types[|types| - 1]
  }

  lemma {:induction false} BaseIsPrefix(types: seq<seq<Method>>, n: nat)
    requires n <= |types|
    ensures |AllMethods(types[..n])| <= |AllMethods(types)|
    ensures AllMethods(types)[..|AllMethods(types[..n])|] == AllMethods(types[..n])
  {
    if n == |types| {
      assert types[..n] == types;
    } else {
      BaseIsPrefix(types[..|types| - 1], n);
      assert types[..|types| - 1][..n] == types[..n];
    }
  }

  // ---------------------------------------------------------------------------------------------
  // Section II.10.3 of ECMA-335: slots and what overrides them

  predicate IsSlot(ms: seq<Method>, p: nat) { p < |ms| && ms[p].isVirtual && ms[p].isNewSlot }

  /** k is the method that introduced the slot p, or overrides it: same name, and no newer slot of that name hides p. */
  ghost predicate Implements(ms: seq<Method>, k: nat, p: nat) {
    && IsSlot(ms, p) && p <= k < |ms| && ms[k].isVirtual
    && (k == p ||
        (!ms[k].isNewSlot && ms[k].functionName == ms[p].functionName &&
         forall j :: p < j < k && IsSlot(ms, j) ==> ms[j].functionName != ms[p].functionName))
  }

  ghost predicate IsMostDerived(ms: seq<Method>, p: nat, k: nat) {
    Implements(ms, k, p) && forall j :: k < j < |ms| ==> !Implements(ms, j, p)
  }

  /** Every override finds a slot to override. */
  ghost predicate IsComplete(ms: seq<Method>) {
    forall k :: 0 <= k < |ms| && ms[k].isVirtual ==> exists p :: Implements(ms, k, p)
  }

  lemma ImplementsOne(ms: seq<Method>, k: nat, p: nat, q: nat)
    requires Implements(ms, k, p) && Implements(ms, k, q)
    ensures p == q
  {
  }

  lemma ImplementsRange(ms: seq<Method>, k: nat, p: nat)
    requires Implements(ms, k, p)
    ensures p <= k < |ms|
  {
  }

  // ---------------------------------------------------------------------------------------------
  // Slot enumeration

  /** A new slot method and every method in its slot, in order. */
  datatype Entry = Entry(newslot: nat, overrides: seq<nat>)

  /** The entries are exactly the slots among the first n methods, in order of introduction, each with exactly its
      methods, in order. */
  ghost predicate AreSlots(ms: seq<Method>, n: nat, list: seq<Entry>) {
    && (forall i :: 0 <= i < |list| ==> IsEntry(ms, n, list[i]))
    && (forall i, j :: 0 <= i < j < |list| ==> list[i].newslot < list[j].newslot)
    && (forall p: nat :: IsSlot(ms, p) && p < n ==> HasEntry(list, p))
  }

  ghost predicate IsEntry(ms: seq<Method>, n: nat, e: Entry) {
    && IsSlot(ms, e.newslot) && e.newslot < n && IsAscending(e.overrides) && e.overrides != []
    && forall k: nat :: k in e.overrides <==> k < n && Implements(ms, k, e.newslot)
  }

  ghost predicate HasEntry(list: seq<Entry>, p: nat) { exists i :: 0 <= i < |list| && list[i].newslot == p }

  /** Groups the virtual methods by slot; an override joins the newest slot of its name. */
  method OrderByMostOverrides(ms: seq<Method>) returns (list: seq<Entry>)
    requires IsComplete(ms)
    ensures AreSlots(ms, |ms|, list)
  {
    hide AreSlots, IsComplete;
    list := [];
    var n := 0;
    NoSlots(ms);
    while n < |ms|
      invariant 0 <= n <= |ms|
      invariant AreSlots(ms, n, list)
    {
      if ms[n].isVirtual {
        if ms[n].isNewSlot {
          NewSlot(ms, n, list);
          list := list + [Entry(n, [n])];
        } else {
          var index := FindLastIndex(ms, n, list);
          Joins(ms, n, list, index);
          list := list[index := Entry(list[index].newslot, list[index].overrides + [n])];
        }
      } else {
        NotVirtual(ms, n, list);
      }
      n := n + 1;
    }
  }

  lemma NoSlots(ms: seq<Method>)
    ensures AreSlots(ms, 0, [])
  {
  }

  /** The last slot with the name of method n, which its completeness guarantees. */
  method FindLastIndex(ms: seq<Method>, n: nat, list: seq<Entry>) returns (index: nat)
    requires n < |ms| && ms[n].isVirtual && !ms[n].isNewSlot && IsComplete(ms) && AreSlots(ms, n, list)
    ensures index < |list| && Implements(ms, n, list[index].newslot)
  {
    ghost var p :| Implements(ms, n, p);
    assert HasEntry(list, p);
    ghost var at :| 0 <= at < |list| && list[at].newslot == p;
    index := |list| - 1;
    while ms[list[index].newslot].functionName != ms[n].functionName
      invariant at <= index < |list|
      decreases index
    {
      assert IsEntry(ms, n, list[index]);
      index := index - 1;
    }
    assert IsEntry(ms, n, list[index]);
  }

  lemma EntryUnchanged(ms: seq<Method>, n: nat, e: Entry)
    requires IsEntry(ms, n, e) && !Implements(ms, n, e.newslot)
    ensures IsEntry(ms, n + 1, e)
  {
    hide Implements;
  }

  lemma EntryGrows(ms: seq<Method>, n: nat, e: Entry)
    requires IsEntry(ms, n, e) && Implements(ms, n, e.newslot)
    ensures IsEntry(ms, n + 1, Entry(e.newslot, e.overrides + [n]))
  {
    hide Implements;
    assert forall i :: 0 <= i < |e.overrides| ==> e.overrides[i] in e.overrides;
  }

  lemma NotVirtual(ms: seq<Method>, n: nat, list: seq<Entry>)
    requires n < |ms| && !ms[n].isVirtual && AreSlots(ms, n, list)
    ensures AreSlots(ms, n + 1, list)
  {
    forall i | 0 <= i < |list| ensures IsEntry(ms, n + 1, list[i]) {
      EntryUnchanged(ms, n, list[i]);
    }
  }

  lemma NewSlot(ms: seq<Method>, n: nat, list: seq<Entry>)
    requires n < |ms| && IsSlot(ms, n) && AreSlots(ms, n, list)
    ensures AreSlots(ms, n + 1, list + [Entry(n, [n])])
  {
    var l := list + [Entry(n, [n])];
    forall i | 0 <= i < |l| ensures IsEntry(ms, n + 1, l[i]) {
      if i < |list| { EntryUnchanged(ms, n, list[i]); }
    }
    forall p: nat | IsSlot(ms, p) && p < n + 1 ensures HasEntry(l, p) {
      if p < n {
        var i :| 0 <= i < |list| && list[i].newslot == p;
        assert l[i].newslot == p;
      } else {
        assert l[|list|].newslot == p;
      }
    }
  }

  lemma Joins(ms: seq<Method>, n: nat, list: seq<Entry>, index: nat)
    requires n < |ms| && ms[n].isVirtual && !ms[n].isNewSlot && AreSlots(ms, n, list)
    requires index < |list| && Implements(ms, n, list[index].newslot)
    ensures AreSlots(ms, n + 1, list[index := Entry(list[index].newslot, list[index].overrides + [n])])
  {
    hide Implements;
    var l := list[index := Entry(list[index].newslot, list[index].overrides + [n])];
    forall i | 0 <= i < |l| ensures IsEntry(ms, n + 1, l[i]) {
      if i == index {
        EntryGrows(ms, n, list[i]);
      } else {
        if Implements(ms, n, list[i].newslot) { ImplementsOne(ms, n, list[i].newslot, list[index].newslot); }
        EntryUnchanged(ms, n, list[i]);
      }
    }
    forall p: nat | IsSlot(ms, p) && p < n + 1 ensures HasEntry(l, p) {
      var i :| 0 <= i < |list| && list[i].newslot == p;
      assert l[i].newslot == p;
    }
  }

  /** The last method of an entry is the most derived override of its slot. */
  lemma LastIsMostDerived(ms: seq<Method>, e: Entry)
    requires IsEntry(ms, |ms|, e)
    ensures IsMostDerived(ms, e.newslot, e.overrides[|e.overrides| - 1])
  {
    hide Implements;
    var k := e.overrides[|e.overrides| - 1];
    assert k in e.overrides;
    forall j | j in e.overrides ensures j <= k {
      var i :| 0 <= i < |e.overrides| && e.overrides[i] == j;
    }
  }

  // ---------------------------------------------------------------------------------------------
  // VTable layout and contents

  /** Entries that name methods of the list. */
  predicate AreWithin(ms: seq<Method>, list: seq<Entry>) {
    forall i :: 0 <= i < |list| ==>
      list[i].newslot < |ms| && list[i].overrides != [] && list[i].overrides[|list[i].overrides| - 1] < |ms|
  }

  /** Slots whose method is visible, in order. */
  function VisibleSlots(ms: seq<Method>, list: seq<Entry>): seq<nat>
    requires AreWithin(ms, list)
  {
    if list == [] then [] else
    var e := list[|list| - 1];
    VisibleSlots(ms, list[..|list| - 1]) + (if ms[e.newslot].isVisible then [e.newslot] else [])
  }

  predicate AreMethods(ms: seq<Method>, slots: seq<nat>) { forall i :: 0 <= i < |slots| ==> slots[i] < |ms| }

  /** A newer slot has the same name. */
  ghost predicate IsHidden(ms: seq<Method>, slots: seq<nat>, i: nat)
    requires AreMethods(ms, slots) && i < |slots|
  {
    exists j :: i < j < |slots| && ms[slots[j]].functionName == ms[slots[i]].functionName
  }

  /** The struct member of a slot: the short name for the newest slot of a name, the full name for hidden ones. */
  ghost function MemberName(ms: seq<Method>, slots: seq<nat>, i: nat): string
    requires AreMethods(ms, slots) && i < |slots|
  {
    if IsHidden(ms, slots, i) then ms[slots[i]].fullName else ms[slots[i]].functionName
  }

  /** Walks the slots from the last one and gives the short name to the first one of a name that it meets. */
  method WriteLayout(ms: seq<Method>, slots: seq<nat>) returns (names: seq<string>)
    requires AreMethods(ms, slots)
    ensures |names| == |slots| && forall i :: 0 <= i < |slots| ==> names[i] == MemberName(ms, slots, i)
  {
    names := [];
    var used: set<string> := {};
    var n := |slots|;
    while n > 0
      invariant 0 <= n <= |slots| && |names| == |slots| - n
      invariant forall s :: s in used <==> IsUsed(ms, slots, n, s)
      invariant forall i :: n <= i < |slots| ==> names[i - n] == MemberName(ms, slots, i)
    {
      n := n - 1;
      var m := ms[slots[n]];
      UsedStep(ms, slots, n);
      ghost var before := names;
      names := [if m.functionName in used then m.fullName else m.functionName] + names;
      used := used + {m.functionName};
      forall i | n <= i < |slots| ensures names[i - n] == MemberName(ms, slots, i) {
        if n < i { assert names[i - n] == before[i - (n + 1)]; }
      }
    }
  }

  ghost predicate IsUsed(ms: seq<Method>, slots: seq<nat>, n: nat, s: string)
    requires AreMethods(ms, slots)
  {
    exists j :: n <= j < |slots| && ms[slots[j]].functionName == s
  }

  lemma UsedStep(ms: seq<Method>, slots: seq<nat>, n: nat)
    requires AreMethods(ms, slots) && n < |slots|
    ensures IsHidden(ms, slots, n) <==> IsUsed(ms, slots, n + 1, ms[slots[n]].functionName)
    ensures forall s :: IsUsed(ms, slots, n, s) <==> IsUsed(ms, slots, n + 1, s) || s == ms[slots[n]].functionName
  {
    forall s ensures IsUsed(ms, slots, n, s) <==> IsUsed(ms, slots, n + 1, s) || s == ms[slots[n]].functionName {
      if j :| n <= j < |slots| && ms[slots[j]].functionName == s { assert j == n || IsUsed(ms, slots, n + 1, s); }
    }
  }

  /** What the vtable of a type holds: the most derived override of each entry, if that one is visible. */
  function Contents(ms: seq<Method>, list: seq<Entry>): seq<nat>
    requires AreWithin(ms, list)
  {
    if list == [] then [] else
    var o := list[|list| - 1].overrides;
    Contents(ms, list[..|list| - 1]) + (if ms[o[|o| - 1]].isVisible then [o[|o| - 1]] else [])
  }

  // ---------------------------------------------------------------------------------------------
  // Call sites

  /** Entries of one name, in order. */
  function Group(ms: seq<Method>, list: seq<Entry>, name: string): (r: seq<Entry>)
    requires AreWithin(ms, list)
    ensures forall i :: 0 <= i < |r| ==> r[i] in list
  {
    if list == [] then [] else
    Group(ms, list[..|list| - 1], name) +
    (if ms[list[|list| - 1].newslot].functionName == name then [list[|list| - 1]] else [])
  }

  /** Index of the first entry that holds the method, or the length. */
  function FirstHolding(group: seq<Entry>, k: nat): (i: nat)
    ensures i <= |group| && (i < |group| ==> k in group[i].overrides)
    ensures forall j :: 0 <= j < i ==> k !in group[j].overrides
  {
    if group == [] then 0 else if k in group[0].overrides then 0 else 1 + FirstHolding(group[1..], k)
  }

  /** The member a virtual call of method k through a receiver of this static type names. */
  function CallSiteMember(ms: seq<Method>, list: seq<Entry>, k: nat): string
    requires k < |ms| && AreWithin(ms, list)
    requires FirstHolding(Group(ms, list, ms[k].functionName), k) < |Group(ms, list, ms[k].functionName)|
  {
    var group := Group(ms, list, ms[k].functionName);
    var slotIndex := FirstHolding(group, k);
    var m := ms[group[slotIndex].newslot];
    if slotIndex == |group| - 1 then m.functionName else m.fullName
  }

  // ---------------------------------------------------------------------------------------------
  // Correct dispatch

  /** An override is as visible as its slot. */
  ghost predicate VisibilityIsInherited(ms: seq<Method>) {
    forall k: nat, p: nat :: Implements(ms, k, p) ==> ms[k].isVisible == ms[p].isVisible
  }

  /** Full names tell slots apart and are never short names. */
  ghost predicate IsWellNamed(ms: seq<Method>) {
    forall p: nat, q: nat :: IsSlot(ms, p) && IsSlot(ms, q) ==>
      ms[p].fullName != ms[q].functionName && (p != q ==> ms[p].fullName != ms[q].fullName)
  }

  /** All slots of the called name can be seen. */
  ghost predicate NameIsVisible(ms: seq<Method>, name: string) {
    forall p: nat :: IsSlot(ms, p) && ms[p].functionName == name ==> ms[p].isVisible
  }

  lemma EntriesAreWithin(ms: seq<Method>, list: seq<Entry>)
    requires forall i :: 0 <= i < |list| ==> IsEntry(ms, |ms|, list[i])
    ensures AreWithin(ms, list)
  {
    forall i | 0 <= i < |list| ensures list[i].overrides[|list[i].overrides| - 1] < |ms| {
      assert list[i].overrides[|list[i].overrides| - 1] in list[i].overrides;
    }
  }

  ghost predicate AreOrdered(ms: seq<Method>, list: seq<Entry>) {
    && AreWithin(ms, list)
    && (forall i :: 0 <= i < |list| ==> IsSlot(ms, list[i].newslot))
    && (forall i, j :: 0 <= i < j < |list| ==> list[i].newslot < list[j].newslot)
  }

  lemma {:induction false} VisibleMembers(ms: seq<Method>, list: seq<Entry>)
    requires AreOrdered(ms, list)
    ensures IsAscending(VisibleSlots(ms, list))
    ensures forall p: nat :: p in VisibleSlots(ms, list) <==> HasEntry(list, p) && p < |ms| && ms[p].isVisible
  {
    if list != [] {
      var n := |list| - 1;
      VisibleMembers(ms, list[..n]);
      var v := VisibleSlots(ms, list[..n]);
      assert forall i :: 0 <= i < |v| ==> v[i] in v;
      forall p: nat ensures HasEntry(list, p) <==> HasEntry(list[..n], p) || p == list[n].newslot {
        EntrySnoc(list, p);
      }
    }
  }

  lemma EntrySnoc(list: seq<Entry>, p: nat)
    requires list != []
    ensures HasEntry(list, p) <==> HasEntry(list[..|list| - 1], p) || p == list[|list| - 1].newslot
  {
    var n := |list| - 1;
    if HasEntry(list[..n], p) {
      var i :| 0 <= i < n && list[..n][i].newslot == p;
      assert list[i].newslot == p;
    }
    if HasEntry(list, p) {
      var i :| 0 <= i < |list| && list[i].newslot == p;
      if i < n { assert list[..n][i].newslot == p; }
    }
  }

  /** A base type's visible slots are the first visible slots of every derived type. */
  lemma {:induction false} SlotsArePrefix(base: seq<Method>, ms: seq<Method>, lb: seq<Entry>, ld: seq<Entry>)
    requires |base| <= |ms| && ms[..|base|] == base && AreSlots(base, |base|, lb) && AreSlots(ms, |ms|, ld)
    ensures AreOrdered(base, lb) && AreOrdered(ms, ld)
    ensures |VisibleSlots(base, lb)| <= |VisibleSlots(ms, ld)|
    ensures VisibleSlots(base, lb) == VisibleSlots(ms, ld)[..|VisibleSlots(base, lb)|]
  {
    OrderedEntries(base, lb);
    OrderedEntries(ms, ld);
    VisibleMembers(base, lb);
    VisibleMembers(ms, ld);
    forall p: nat ensures p in VisibleSlots(base, lb) <==> p in VisibleSlots(ms, ld) && p < |base| {
      if 0 <= p < |base| { assert base[p] == ms[p]; }
    }
    AscendingPrefix(VisibleSlots(base, lb), VisibleSlots(ms, ld), |base|);
  }

  lemma OrderedEntries(ms: seq<Method>, list: seq<Entry>)
    requires AreSlots(ms, |ms|, list)
    ensures AreOrdered(ms, list)
    ensures forall p: nat :: HasEntry(list, p) <==> IsSlot(ms, p)
  {
    EntriesAreWithin(ms, list);
    forall i | 0 <= i < |list| ensures IsSlot(ms, list[i].newslot) { assert IsEntry(ms, |ms|, list[i]); }
    forall p: nat ensures HasEntry(list, p) <==> IsSlot(ms, p) {
      if HasEntry(list, p) { var i :| 0 <= i < |list| && list[i].newslot == p; }
    }
  }

  /** Every word of the vtable is the most derived override of the slot it stands for. */
  lemma {:induction false} ContentsMatch(ms: seq<Method>, list: seq<Entry>)
    requires VisibilityIsInherited(ms) && AreWithin(ms, list)
    requires forall i :: 0 <= i < |list| ==> IsEntry(ms, |ms|, list[i])
    ensures |Contents(ms, list)| == |VisibleSlots(ms, list)|
    ensures forall i :: 0 <= i < |Contents(ms, list)| ==> IsMostDerived(ms, VisibleSlots(ms, list)[i], Contents(ms, list)[i])
  {
    hide IsMostDerived, IsEntry, Implements;
    if list != [] {
      var n := |list| - 1;
      ContentsMatch(ms, list[..n]);
      LastIsMostDerived(ms, list[n]);
      MostDerivedImplements(ms, list[n].newslot, list[n].overrides[|list[n].overrides| - 1]);
      assert Implements(ms, list[n].overrides[|list[n].overrides| - 1], list[n].newslot);
    }
  }

  lemma MostDerivedImplements(ms: seq<Method>, p: nat, k: nat)
    requires IsMostDerived(ms, p, k)
    ensures Implements(ms, k, p)
  {
  }

  lemma {:induction false} GroupMembers(ms: seq<Method>, list: seq<Entry>, name: string, p: nat)
    requires AreWithin(ms, list)
    ensures HasEntry(Group(ms, list, name), p) <==> HasEntry(list, p) && p < |ms| && ms[p].functionName == name
  {
    hide HasEntry;
    if list != [] {
      var n := |list| - 1;
      GroupMembers(ms, list[..n], name, p);
      EntrySnoc(list, p);
      var g := Group(ms, list[..n], name);
      if ms[list[n].newslot].functionName == name {
        assert Group(ms, list, name) == g + [list[n]] && (g + [list[n]])[..|g|] == g;
        EntrySnoc(g + [list[n]], p);
      } else {
        assert Group(ms, list, name) == g;
      }
    } else {
      NoEntry();
    }
  }

  lemma {:induction false} GroupOrder(ms: seq<Method>, list: seq<Entry>, name: string)
    requires AreOrdered(ms, list)
    ensures AreOrdered(ms, Group(ms, list, name))
  {
    hide IsSlot;
    if list != [] {
      var n := |list| - 1;
      GroupOrder(ms, list[..n], name);
      var g := Group(ms, list[..n], name);
      forall i | 0 <= i < |g| ensures g[i].newslot < list[n].newslot { assert g[i] in list[..n]; }
    }
  }

  lemma NoEntry()
    ensures forall p: nat :: !HasEntry([], p)
  {
  }

  /** A newer slot than p has its name. */
  ghost predicate IsShadowed(ms: seq<Method>, p: nat)
    requires p < |ms|
  {
    exists q: nat :: p < q && IsSlot(ms, q) && ms[q].functionName == ms[p].functionName
  }

  /** The first entry of the group that holds a method is its slot's. */
  lemma {:induction false} FoundSlot(ms: seq<Method>, group: seq<Entry>, k: nat, p: nat)
    requires HasEntry(group, p) && Implements(ms, k, p)
    requires forall i :: 0 <= i < |group| ==> IsEntry(ms, |ms|, group[i])
    ensures FirstHolding(group, k) < |group| && group[FirstHolding(group, k)].newslot == p
  {
    hide Implements, IsAscending;
    var at :| 0 <= at < |group| && group[at].newslot == p;
    ImplementsRange(ms, k, p);
    assert IsEntry(ms, |ms|, group[at]) && k in group[at].overrides;
    var i := FirstHolding(group, k);
    assert i <= at;
    assert IsEntry(ms, |ms|, group[i]);
    ImplementsOne(ms, k, group[i].newslot, p);
  }

  /** The last entry of the group is the one that no newer slot shadows. */
  lemma LastOfGroup(ms: seq<Method>, group: seq<Entry>, name: string, i: nat)
    requires AreOrdered(ms, group) && i < |group| && ms[group[i].newslot].functionName == name
    requires forall q: nat :: HasEntry(group, q) <==> IsSlot(ms, q) && ms[q].functionName == name
    ensures i == |group| - 1 <==> !IsShadowed(ms, group[i].newslot)
  {
    forall q: nat | HasEntry(group, q) ensures q <= group[|group| - 1].newslot {
      var j :| 0 <= j < |group| && group[j].newslot == q;
    }
    if i < |group| - 1 { assert HasEntry(group, group[i + 1].newslot); }
  }

  /** A call site finds the method's slot and names it short unless a newer slot of the name exists. */
  lemma {:induction false} CallSiteMeaning(ms: seq<Method>, list: seq<Entry>, k: nat, p: nat)
    requires AreSlots(ms, |ms|, list) && Implements(ms, k, p)
    ensures AreWithin(ms, list)
    ensures
      var group := Group(ms, list, ms[k].functionName);
      FirstHolding(group, k) < |group|
    ensures CallSiteMember(ms, list, k) == if IsShadowed(ms, p) then ms[p].fullName else ms[p].functionName
  {
    hide IsAscending, IsShadowed, AreOrdered, HasEntry;
    OrderedEntries(ms, list);
    AllEntries(ms, list);
    var name := ms[k].functionName;
    var group := Group(ms, list, name);
    GroupOrder(ms, list, name);
    forall q: nat ensures HasEntry(group, q) <==> IsSlot(ms, q) && ms[q].functionName == name {
      GroupMembers(ms, list, name, q);
    }
    forall i | 0 <= i < |group| ensures IsEntry(ms, |ms|, group[i]) { assert group[i] in list; }
    assert HasEntry(group, p);
    FoundSlot(ms, group, k, p);
    LastOfGroup(ms, group, name, FirstHolding(group, k));
  }

  /** The layout hides exactly the shadowed slots, as far as their name is visible. */
  lemma {:induction false} HiddenIsShadowed(ms: seq<Method>, list: seq<Entry>, i: nat)
    requires AreSlots(ms, |ms|, list) && AreOrdered(ms, list) && AreMethods(ms, VisibleSlots(ms, list))
    requires i < |VisibleSlots(ms, list)| && NameIsVisible(ms, ms[VisibleSlots(ms, list)[i]].functionName)
    ensures IsHidden(ms, VisibleSlots(ms, list), i) <==> IsShadowed(ms, VisibleSlots(ms, list)[i])
  {
    VisibleMembers(ms, list);
    OrderedEntries(ms, list);
    hide VisibleSlots, AreSlots;
    var v := VisibleSlots(ms, list);
    if IsHidden(ms, v, i) {
      var j :| i < j < |v| && ms[v[j]].functionName == ms[v[i]].functionName;
      assert v[j] in v;
    }
    if IsShadowed(ms, v[i]) {
      var q: nat :| v[i] < q && IsSlot(ms, q) && ms[q].functionName == ms[v[i]].functionName;
      assert q in v;
      var j :| 0 <= j < |v| && v[j] == q;
      assert i < j;
    }
  }

  /** No two members of a layout have the same name. */
  lemma MembersDiffer(ms: seq<Method>, slots: seq<nat>, i: nat, j: nat)
    requires AreMethods(ms, slots) && IsAscending(slots) && IsWellNamed(ms) && i < j < |slots|
    requires forall k :: 0 <= k < |slots| ==> IsSlot(ms, slots[k])
    ensures MemberName(ms, slots, i) != MemberName(ms, slots, j)
  {
  }

  lemma {:induction false} VisibleAreMethods(ms: seq<Method>, list: seq<Entry>)
    requires AreSlots(ms, |ms|, list)
    ensures AreOrdered(ms, list) && AreMethods(ms, VisibleSlots(ms, list)) && IsAscending(VisibleSlots(ms, list))
    ensures forall i :: 0 <= i < |VisibleSlots(ms, list)| ==> IsSlot(ms, VisibleSlots(ms, list)[i])
  {
    OrderedEntries(ms, list);
    VisibleMembers(ms, list);
    var v := VisibleSlots(ms, list);
    forall i | 0 <= i < |v| ensures IsSlot(ms, v[i]) { assert v[i] in v; }
  }

  /** A virtual call through a static type names one member of that type's layout, and in the vtable of every
      derived type the word at that member's place is the most derived override of the called method's slot. */
  lemma DispatchIsCorrect(types: seq<seq<Method>>, s: nat, lb: seq<Entry>, ld: seq<Entry>, k: nat) returns (i: nat, p: nat)
    requires s <= |types|
    requires AreSlots(AllMethods(types[..s]), |AllMethods(types[..s])|, lb)
    requires AreSlots(AllMethods(types), |AllMethods(types)|, ld)
    requires VisibilityIsInherited(AllMethods(types)) && IsWellNamed(AllMethods(types[..s])) && IsComplete(AllMethods(types[..s]))
    requires k < |AllMethods(types[..s])| && AllMethods(types[..s])[k].isVirtual
    requires NameIsVisible(AllMethods(types[..s]), AllMethods(types[..s])[k].functionName)
    ensures AreWithin(AllMethods(types[..s]), lb) && AreWithin(AllMethods(types), ld)
    ensures
      var group := Group(AllMethods(types[..s]), lb, AllMethods(types[..s])[k].functionName);
      FirstHolding(group, k) < |group|
    ensures
      var (base, all) := (AllMethods(types[..s]), AllMethods(types));
      var layout := VisibleSlots(base, lb);
      && AreMethods(base, layout) && i < |layout| && MemberName(base, layout, i) == CallSiteMember(base, lb, k)
      && (forall j :: 0 <= j < |layout| && j != i ==> MemberName(base, layout, j) != CallSiteMember(base, lb, k))
      && Implements(base, k, p) && i < |Contents(all, ld)| && IsMostDerived(all, p, Contents(all, ld)[i])
  {
    hide AreSlots, Implements, IsMostDerived, IsWellNamed, VisibilityIsInherited, IsComplete, AreOrdered;
    var base, all := AllMethods(types[..s]), AllMethods(types);
    BaseIsPrefix(types, s);
    p := SlotOf(base, k);
    CallSiteMeaning(base, lb, k, p);
    SlotsArePrefix(base, all, lb, ld);
    VisibleAreMethods(base, lb);
    i := SlotPlace(base, lb, k, p);
    var layout := VisibleSlots(base, lb);
    HiddenIsShadowed(base, lb, i);
    forall j | 0 <= j < |layout| && j != i ensures MemberName(base, layout, j) != MemberName(base, layout, i) {
      if j < i { MembersDiffer(base, layout, j, i); } else { MembersDiffer(base, layout, i, j); }
    }
    AllEntries(all, ld);
    ContentsMatch(all, ld);
    assert VisibleSlots(all, ld)[i] == layout[i];
  }

  lemma SlotOf(ms: seq<Method>, k: nat) returns (p: nat)
    requires IsComplete(ms) && k < |ms| && ms[k].isVirtual
    ensures Implements(ms, k, p)
  {
    p :| Implements(ms, k, p);
  }

  lemma AllEntries(ms: seq<Method>, list: seq<Entry>)
    requires AreSlots(ms, |ms|, list)
    ensures AreWithin(ms, list) && forall i :: 0 <= i < |list| ==> IsEntry(ms, |ms|, list[i])
  {
    EntriesAreWithin(ms, list);
  }

  lemma SlotPlace(ms: seq<Method>, list: seq<Entry>, k: nat, p: nat) returns (i: nat)
    requires AreSlots(ms, |ms|, list) && AreWithin(ms, list) && Implements(ms, k, p)
    requires NameIsVisible(ms, ms[k].functionName)
    ensures i < |VisibleSlots(ms, list)| && VisibleSlots(ms, list)[i] == p && ms[p].functionName == ms[k].functionName
  {
    OrderedEntries(ms, list);
    VisibleMembers(ms, list);
    assert p in VisibleSlots(ms, list);
    i :| 0 <= i < |VisibleSlots(ms, list)| && VisibleSlots(ms, list)[i] == p;
  }
}
