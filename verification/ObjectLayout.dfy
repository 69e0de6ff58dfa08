/** Where the C structure of a class holds its vptrs and fields, and the runtime type that is generated for it
    (IL2C.Core/Writers/TypeWriter.cs, IL2C.Core/Writers/TypeHelperWriter.cs). */
module ObjectLayout {
  import opened Arithmetic
  import opened Wrappers

  const WORD: nat := 8

  /** The C type of an instance field. */
  datatype Field = Field(size: nat, alignment: nat)

  datatype ClassInformation =
    ClassInformation(name: string, interfaces: seq<string>, fields: seq<Field>, baseType: Option<ClassInformation>)

  /** A member of the C structure behind vptr0. */
  datatype Member = Vptr(interfaceName: string) | Data(field: Field)

  ghost predicate IsClass(t: ClassInformation)
    decreases t
  {
    (forall f :: f in t.fields ==> f.alignment > 0) && (t.baseType.Some? ==> IsClass(t.baseType.value))
  }

  // ---------------------------------------------------------------------------------------------
  // Members of the structure

  function NewVptrs(interfaces: seq<string>, took: set<string>): seq<Member> {
    if interfaces == [] then [] else
    if interfaces[0] in took then NewVptrs(interfaces[1..], took) else
    [Vptr(interfaces[0])] + NewVptrs(interfaces[1..], took + {interfaces[0]})
  }

  function DataMembers(fields: seq<Field>): seq<Member> { seq(|fields|, i requires 0 <= i < |fields| => Data(fields[i])) }

  function Elements(s: seq<string>): set<string> { set x | x in s }

  /** The interfaces of the type and its base types. */
  function Took(t: ClassInformation): set<string>
    decreases t
  {
    (if t.baseType.Some? then Took(t.baseType.value) else {}) + Elements(t.interfaces)
  }

  /** Base members first; each interface has one vptr, at the first type that implements it. */
  function Members(t: ClassInformation): seq<Member>
    decreases t
  {
    var inherited, took := if t.baseType.Some? then (Members(t.baseType.value)) else [], if t.baseType.Some? then Took(t.baseType.value) else {};
    inherited + NewVptrs(t.interfaces, took) + DataMembers(t.fields)
  }

  /** The type and its base types, base types first. */
  function Lineage(t: ClassInformation): (r: seq<ClassInformation>)
    ensures r != [] && r[|r| - 1] == t
    decreases t
  {
    (if t.baseType.Some? then Lineage(t.baseType.value) else []) + [t]
  }

  lemma {:induction false} LineageStep(t: ClassInformation, i: nat)
    requires i < |Lineage(t)|
    ensures Lineage(t)[i].baseType == if i == 0 then None else Some(Lineage(t)[i - 1])
    decreases t
  {
    if t.baseType.Some? && i < |Lineage(t)| - 1 { LineageStep(t.baseType.value, i); }
  }

  lemma {:induction false} NoInterfaces(interfaces: seq<string>, took: set<string>)
    ensures interfaces[0..] == interfaces && interfaces[..|interfaces|] == interfaces
    ensures Elements(interfaces[..0]) == {} && NewVptrs(interfaces[|interfaces|..], took) == []
  {
  }

  lemma {:induction false} NextInterface(interfaces: seq<string>, j: nat, took: set<string>)
    requires j < |interfaces|
    ensures NewVptrs(interfaces[j..], took) ==
            if interfaces[j] in took then NewVptrs(interfaces[j + 1..], took)
            else [Vptr(interfaces[j])] + NewVptrs(interfaces[j + 1..], took + {interfaces[j]})
    ensures Elements(interfaces[..j + 1]) == Elements(interfaces[..j]) + {interfaces[j]}
  {
    assert interfaces[j..][1..] == interfaces[j + 1..];
    assert interfaces[..j + 1] == interfaces[..j] + [interfaces[j]];
  }

  /** The interfaces that are new to the set get a vptr each. */
  method TakeInterfaces(interfaces: seq<string>, took: set<string>) returns (vptrs: seq<Member>, tookInterfaceTypes: set<string>)
    ensures vptrs == NewVptrs(interfaces, took) && tookInterfaceTypes == took + Elements(interfaces)
  {
    hide NewVptrs, Elements;
    vptrs, tookInterfaceTypes := [], took;
    NoInterfaces(interfaces, took);
    for j := 0 to |interfaces|
      invariant vptrs + NewVptrs(interfaces[j..], tookInterfaceTypes) == NewVptrs(interfaces, took)
      invariant tookInterfaceTypes == took + Elements(interfaces[..j])
    {
      var interfaceType := interfaces[j];
      NextInterface(interfaces, j, tookInterfaceTypes);
      if interfaceType !in tookInterfaceTypes {
        tookInterfaceTypes := tookInterfaceTypes + {interfaceType};
        vptrs := vptrs + [Vptr(interfaceType)];
      }
    }
    NoInterfaces(interfaces, tookInterfaceTypes);
  }

  /** The loop that writes the structure, with the set of interfaces that have a vptr already. */
  method WriteMembers(t: ClassInformation) returns (members: seq<Member>)
    ensures members == Members(t)
  {
    hide DataMembers;
    members := [];
    var tookInterfaceTypes: set<string> := {};
    var types := Lineage(t);
    for i := 0 to |types|
      invariant i == 0 ==> members == [] && tookInterfaceTypes == {}
      invariant i > 0 ==> members == Members(types[i - 1]) && tookInterfaceTypes == Took(types[i - 1])
    {
      var declared := types[i];
      LineageStep(t, i);
      var vptrs;
      vptrs, tookInterfaceTypes := TakeInterfaces(declared.interfaces, tookInterfaceTypes);
      members := members + vptrs;
      members := members + DataMembers(declared.fields);
    }
  }

  lemma {:induction false} NewVptrsMeaning(interfaces: seq<string>, took: set<string>, m: Member)
    ensures m in NewVptrs(interfaces, took) <==> m.Vptr? && m.interfaceName in interfaces && m.interfaceName !in took
  {
    if interfaces != [] {
      NewVptrsMeaning(interfaces[1..], took, m);
      NewVptrsMeaning(interfaces[1..], took + {interfaces[0]}, m);
      assert forall x :: x in interfaces <==> x == interfaces[0] || x in interfaces[1..];
    }
  }

  /** A class has a vptr for exactly the interfaces that it or a base type implements. */
  lemma {:induction false} MembersMeaning(t: ClassInformation, name: string)
    ensures Vptr(name) in Members(t) <==> name in Took(t)
    decreases t
  {
    if t.baseType.Some? { MembersMeaning(t.baseType.value, name); }
    NewVptrsMeaning(t.interfaces, if t.baseType.Some? then Took(t.baseType.value) else {}, Vptr(name));
    assert Vptr(name) !in DataMembers(t.fields);
  }

  // ---------------------------------------------------------------------------------------------
  // Offsets, as a C compiler lays out a structure

  function AlignUp(x: nat, alignment: nat): (r: nat)
    ensures alignment > 0 ==> r >= x && r % alignment == 0
  {
    if alignment == 0 || x % alignment == 0 then x else
    Rounded(x, alignment);
    x + (alignment - x % alignment)
  }

  lemma Rounded(x: nat, alignment: nat)
    requires alignment > 0
    ensures (x + (alignment - x % alignment)) % alignment == 0
  {
    var q := x / alignment;
    assert x + (alignment - x % alignment) == (q + 1) * alignment;
    MultipleIsZero(q + 1, alignment);
  }

  function Size(m: Member): nat { if m.Vptr? then WORD else m.field.size }

  function Alignment(m: Member): nat { if m.Vptr? then WORD else m.field.alignment }

  /** offsetof */
  function Offset(members: seq<Member>, i: nat): (r: nat)
    requires i < |members|
    ensures r >= WORD
    decreases i, 1
  {
    var r := AlignUp(End(members, i), Alignment(members[i]));
    assert Alignment(members[i]) == 0 ==> r == End(members, i);
    r
  }

  /** Where the first n members end; vptr0 is in front of them. */
  function End(members: seq<Member>, n: nat): (r: nat)
    requires n <= |members|
    ensures r >= WORD
    decreases n, 0
  {
    if n == 0 then WORD else Offset(members, n - 1) + Size(members[n - 1])
  }

  function StructAlignment(members: seq<Member>): (r: nat)
    ensures r > 0
  {
    if members == [] then WORD else
    var a, b := StructAlignment(members[1..]), Alignment(members[0]);
    if a < b then b else a
  }

  /** sizeof */
  function StructSize(members: seq<Member>): (r: nat)
    ensures r >= WORD
  {
    AlignUp(End(members, |members|), StructAlignment(members))
  }

  /** Members follow one another and stay inside the structure. */
  lemma {:induction false} MembersInOrder(members: seq<Member>, i: nat, j: nat)
    requires i < |members| && i < j <= |members|
    ensures Offset(members, i) + Size(members[i]) <= End(members, j) <= End(members, |members|) <= StructSize(members)
    ensures j < |members| ==> Offset(members, i) + Size(members[i]) <= Offset(members, j)
  {
    EndGrows(members, i + 1, j);
    EndGrows(members, j, |members|);
    if j < |members| { assert Offset(members, j) >= End(members, j); }
  }

  lemma {:induction false} EndGrows(members: seq<Member>, i: nat, j: nat)
    requires i <= j <= |members|
    ensures End(members, i) <= End(members, j)
    decreases j
  {
    if i < j {
      EndGrows(members, i, j - 1);
      assert Offset(members, j - 1) >= End(members, j - 1);
    }
  }

  /** What comes behind a member does not move it. */
  lemma {:induction false} OffsetOfPrefix(a: seq<Member>, b: seq<Member>, i: nat)
    requires i <= |a|
    ensures End(a + b, i) == End(a, i) && (i < |a| ==> Offset(a + b, i) == Offset(a, i))
  {
    if i > 0 { OffsetOfPrefix(a, b, i - 1); }
  }

  function IndexOf(members: seq<Member>, m: Member): (i: nat)
    requires m in members
    ensures i < |members| && members[i] == m
    ensures forall j :: 0 <= j < i ==> members[j] != m
  {
    if members[0] == m then 0 else 1 + IndexOf(members[1..], m)
  }

  lemma {:induction false} IndexInPrefix(a: seq<Member>, b: seq<Member>, m: Member)
    requires m in a
    ensures IndexOf(a + b, m) == IndexOf(a, m)
  {
    var i, j := IndexOf(a + b, m), IndexOf(a, m);
    assert (a + b)[j] == a[j];
    assert i < |a| ==> (a + b)[i] == a[i];
  }

  /** il2c_adjustor_offset; vptr0 is at offset 0. */
  function AdjustorOffset(t: ClassInformation, name: string): (r: nat)
    requires name in Took(t)
    ensures r >= WORD
  {
    MembersMeaning(t, name);
    Offset(Members(t), IndexOf(Members(t), Vptr(name)))
  }

  lemma {:induction false} MembersGrow(t: ClassInformation)
    requires t.baseType.Some?
    ensures Members(t.baseType.value) <= Members(t)
  {
  }

  predicate AreApart(a: nat, n: nat, b: nat, k: nat) { a + n <= b || b + k <= a }

  /** The vptr of an interface is inside the structure, behind vptr0, and overlaps no other member. */
  lemma {:induction false} SlotIsSeparate(t: ClassInformation, name: string, j: nat)
    requires name in Took(t) && j < |Members(t)| && Members(t)[j] != Vptr(name)
    ensures AdjustorOffset(t, name) + WORD <= StructSize(Members(t))
    ensures AreApart(AdjustorOffset(t, name), WORD, Offset(Members(t), j), Size(Members(t)[j]))
  {
    MembersMeaning(t, name);
    var members := Members(t);
    var i := IndexOf(members, Vptr(name));
    MembersInOrder(members, i, |members|);
    if i < j { MembersInOrder(members, i, j); } else { MembersInOrder(members, j, i); }
  }

  lemma {:induction false} SlotsAreSeparate(t: ClassInformation, a: string, b: string)
    requires a in Took(t) && b in Took(t) && a != b
    ensures AreApart(AdjustorOffset(t, a), WORD, AdjustorOffset(t, b), WORD)
  {
    MembersMeaning(t, b);
    SlotIsSeparate(t, a, IndexOf(Members(t), Vptr(b)));
  }

  lemma {:induction false} SlotInside(t: ClassInformation, name: string)
    requires name in Took(t)
    ensures AdjustorOffset(t, name) + WORD <= StructSize(Members(t))
  {
    MembersMeaning(t, name);
    MembersInOrder(Members(t), IndexOf(Members(t), Vptr(name)), |Members(t)|);
  }

  /** Every member of a base type is at the same place in a derived type. */
  lemma {:induction false} BaseMemberStays(t: ClassInformation, i: nat)
    requires t.baseType.Some? && i < |Members(t.baseType.value)|
    ensures i < |Members(t)| && Members(t)[i] == Members(t.baseType.value)[i]
    ensures Offset(Members(t), i) == Offset(Members(t.baseType.value), i)
  {
    var a := Members(t.baseType.value);
    MembersGrow(t);
    assert Members(t) == a + Members(t)[|a|..];
    OffsetOfPrefix(a, Members(t)[|a|..], i);
  }

  lemma {:induction false} BaseSlotStays(t: ClassInformation, name: string)
    requires t.baseType.Some? && name in Took(t.baseType.value)
    ensures name in Took(t) && AdjustorOffset(t, name) == AdjustorOffset(t.baseType.value, name)
  {
    var a := Members(t.baseType.value);
    MembersGrow(t);
    MembersMeaning(t.baseType.value, name);
    assert Members(t) == a + Members(t)[|a|..];
    IndexInPrefix(a, Members(t)[|a|..], Vptr(name));
    BaseMemberStays(t, IndexOf(a, Vptr(name)));
  }

  // ---------------------------------------------------------------------------------------------
  // Fields

  /** The fields of the type and its base types, base types first. */
  function AllFields(t: ClassInformation): seq<Field>
    decreases t
  {
    (if t.baseType.Some? then AllFields(t.baseType.value) else []) + t.fields
  }

  /** The data members, in order. */
  function DataOf(members: seq<Member>): seq<Field> {
    if members == [] then [] else
    (if members[0].Data? then [members[0].field] else []) + DataOf(members[1..])
  }

  lemma NoData()
    ensures DataOf([]) == []
  {
  }

  lemma {:induction false} DataOfMore(m: Member, rest: seq<Member>)
    ensures DataOf([m] + rest) == (if m.Data? then [m.field] else []) + DataOf(rest)
  {
    assert ([m] + rest)[1..] == rest;
  }

  lemma {:induction false} DataOfConcat(a: seq<Member>, b: seq<Member>)
    ensures DataOf(a + b) == DataOf(a) + DataOf(b)
  {
    hide DataOf;
    if a == [] {
      assert a + b == b;
      assert DataOf(a) == [] by { NoData(); }
    } else {
      DataOfConcat(a[1..], b);
      DataOfMore(a[0], a[1..] + b);
      DataOfMore(a[0], a[1..]);
      assert [a[0]] + (a[1..] + b) == a + b && [a[0]] + a[1..] == a;
    }
  }

  lemma {:induction false} DataOfVptrs(interfaces: seq<string>, took: set<string>)
    ensures DataOf(NewVptrs(interfaces, took)) == []
  {
    if interfaces != [] {
      DataOfVptrs(interfaces[1..], took);
      DataOfVptrs(interfaces[1..], took + {interfaces[0]});
      assert ([Vptr(interfaces[0])] + NewVptrs(interfaces[1..], took + {interfaces[0]}))[1..] == NewVptrs(interfaces[1..], took + {interfaces[0]});
    }
  }

  lemma {:induction false} DataOfFields(fields: seq<Field>)
    ensures DataOf(DataMembers(fields)) == fields
  {
    if fields != [] {
      assert DataMembers(fields)[1..] == DataMembers(fields[1..]);
      DataOfFields(fields[1..]);
    }
  }

  /** The data members of a class's structure are exactly all fields of the type and its base types, each once, base types
      first and in declaration order. */
  lemma {:induction false} FieldsAreMembers(t: ClassInformation)
    ensures DataOf(Members(t)) == AllFields(t)
    decreases t
  {
    hide DataOf, DataMembers, NewVptrs, Took;
    if t.baseType.Some? { FieldsAreMembers(t.baseType.value); } else { NoData(); }
    var inherited := if t.baseType.Some? then Members(t.baseType.value) else [];
    var vptrs := NewVptrs(t.interfaces, if t.baseType.Some? then Took(t.baseType.value) else {});
    DataOfConcat(inherited + vptrs, DataMembers(t.fields));
    DataOfConcat(inherited, vptrs);
    DataOfVptrs(t.interfaces, if t.baseType.Some? then Took(t.baseType.value) else {});
    DataOfFields(t.fields);
  }

  /** The member that holds the k-th field of the i-th type of the lineage. */
  function FieldIndex(t: ClassInformation, i: nat, k: nat): nat
    requires i < |Lineage(t)|
    decreases t
  {
    if i < |Lineage(t)| - 1 then FieldIndex(t.baseType.value, i, k) else |Members(t)| - |t.fields| + k
  }

  lemma {:induction false} FieldIsMember(t: ClassInformation, i: nat, k: nat)
    requires i < |Lineage(t)| && k < |Lineage(t)[i].fields|
    ensures FieldIndex(t, i, k) < |Members(t)| && Members(t)[FieldIndex(t, i, k)] == Data(Lineage(t)[i].fields[k])
    decreases t
  {
    if i < |Lineage(t)| - 1 {
      FieldIsMember(t.baseType.value, i, k);
      MembersGrow(t);
    }
  }

  /** Fields come one after the other: base types first, then in declaration order. */
  lemma {:induction false} FieldsInOrder(t: ClassInformation, i: nat, k: nat, j: nat, l: nat)
    requires i < |Lineage(t)| && k < |Lineage(t)[i].fields| && j < |Lineage(t)| && l < |Lineage(t)[j].fields|
    requires i < j || (i == j && k < l)
    ensures FieldIndex(t, i, k) < FieldIndex(t, j, l)
    decreases t
  {
    if j < |Lineage(t)| - 1 {
      FieldsInOrder(t.baseType.value, i, k, j, l);
    } else if i < j {
      FieldIsMember(t.baseType.value, i, k);
    }
  }

  lemma {:induction false} LineageIsClass(t: ClassInformation, i: nat)
    requires IsClass(t) && i < |Lineage(t)|
    ensures forall f :: f in Lineage(t)[i].fields ==> f.alignment > 0
    decreases t
  {
    if i < |Lineage(t)| - 1 { LineageIsClass(t.baseType.value, i); }
  }

  /** Every field of every type of the lineage is a member at an aligned offset, inside the structure and behind vptr0, and
      overlaps no other member. */
  lemma {:induction false} FieldLies(t: ClassInformation, i: nat, k: nat)
    requires IsClass(t) && i < |Lineage(t)| && k < |Lineage(t)[i].fields|
    ensures
      var x, f, members := FieldIndex(t, i, k), Lineage(t)[i].fields[k], Members(t);
      && x < |members| && members[x] == Data(f) && f.alignment > 0
      && Offset(members, x) % f.alignment == 0
      && WORD <= Offset(members, x) && Offset(members, x) + f.size <= StructSize(members)
      && forall y :: 0 <= y < |members| && y != x ==> AreApart(Offset(members, x), f.size, Offset(members, y), Size(members[y]))
  {
    FieldIsMember(t, i, k);
    LineageIsClass(t, i);
    var x, members := FieldIndex(t, i, k), Members(t);
    assert Lineage(t)[i].fields[k] in Lineage(t)[i].fields;
    OffsetIsAligned(members, x);
    MembersInOrder(members, x, |members|);
    forall y | 0 <= y < |members| && y != x
      ensures AreApart(Offset(members, x), Size(members[x]), Offset(members, y), Size(members[y]))
    {
      if x < y { MembersInOrder(members, x, y); } else { MembersInOrder(members, y, x); }
    }
  }

  lemma {:induction false} OffsetIsAligned(members: seq<Member>, i: nat)
    requires i < |members| && Alignment(members[i]) > 0
    ensures Offset(members, i) % Alignment(members[i]) == 0
  {
  }

  /** No interface has two vptrs. */
  lemma {:induction false} VptrsAreUnique(t: ClassInformation, i: nat, j: nat)
    requires i < j < |Members(t)| && Members(t)[i].Vptr? && Members(t)[j].Vptr?
    ensures Members(t)[i] != Members(t)[j]
    decreases t
  {
    hide NewVptrs, Took;
    var took := if t.baseType.Some? then Took(t.baseType.value) else {};
    var inherited := if t.baseType.Some? then Members(t.baseType.value) else [];
    var vptrs := NewVptrs(t.interfaces, took);
    assert Members(t) == inherited + vptrs + DataMembers(t.fields);
    assert j < |inherited| + |vptrs|;
    if j < |inherited| {
      VptrsAreUnique(t.baseType.value, i, j);
    } else if i < |inherited| {
      MembersMeaning(t.baseType.value, Members(t)[i].interfaceName);
      assert inherited[i] in inherited && vptrs[j - |inherited|] in vptrs;
      NewVptrsMeaning(t.interfaces, took, vptrs[j - |inherited|]);
    } else {
      NewVptrsUnique(t.interfaces, took, i - |inherited|, j - |inherited|);
    }
  }

  lemma {:induction false} NewVptrsUnique(interfaces: seq<string>, took: set<string>, i: nat, j: nat)
    requires i < j < |NewVptrs(interfaces, took)|
    ensures NewVptrs(interfaces, took)[i] != NewVptrs(interfaces, took)[j]
  {
    var rest := interfaces[1..];
    if interfaces[0] in took {
      NewVptrsUnique(rest, took, i, j);
    } else {
      var more := took + {interfaces[0]};
      if i > 0 {
        NewVptrsUnique(rest, more, i - 1, j - 1);
      } else {
        assert NewVptrs(rest, more)[j - 1] in NewVptrs(rest, more);
        NewVptrsMeaning(rest, more, NewVptrs(rest, more)[j - 1]);
      }
    }
  }

  // ---------------------------------------------------------------------------------------------
  // Runtime types

  /** IL2C_IMPLEMENTED_INTERFACE: an interface, the address of its vtable, and the adjustor offset in front of the vtable. */
  datatype Implemented = Implemented(name: string, vptr0: nat, offset: nat)

  /** What casts and boxes read of IL2C_RUNTIME_TYPE_DECL. */
  datatype Descriptor =
    Descriptor(name: string, isInterface: bool, isValue: bool, bodySize: nat, vptr0: nat, interfaces: seq<Implemented>,
               baseType: Option<Descriptor>)

  /** The interfaces of derived types come first, without repetition, and then all is reversed. */
  function InterfaceTypes(t: ClassInformation): seq<string> { Reverse(WithoutRepetition(AllInterfaces(t))) }

  function AllInterfaces(t: ClassInformation): seq<string>
    decreases t
  {
    t.interfaces + if t.baseType.Some? then AllInterfaces(t.baseType.value) else []
  }

  function WithoutRepetition(s: seq<string>): seq<string> {
    if s == [] then [] else
    var d := WithoutRepetition(s[..|s| - 1]);
    if s[|s| - 1] in d then d else d + [s[|s| - 1]]
  }

  function Reverse(s: seq<string>): seq<string> { seq(|s|, i requires 0 <= i < |s| => s[|s| - 1 - i]) }

  ghost predicate IsDistinct(s: seq<string>) { forall i, j :: 0 <= i < j < |s| ==> s[i] != s[j] }

  lemma {:induction false} WithoutRepetitionMeaning(s: seq<string>)
    ensures IsDistinct(WithoutRepetition(s)) && forall x :: x in WithoutRepetition(s) <==> x in s
  {
    if s != [] {
      WithoutRepetitionMeaning(s[..|s| - 1]);
      assert forall x :: x in s <==> x in s[..|s| - 1] || x == s[|s| - 1];
    }
  }

  lemma ReverseMeaning(s: seq<string>)
    requires IsDistinct(s)
    ensures IsDistinct(Reverse(s)) && forall x :: x in Reverse(s) <==> x in s
  {
    forall x | x in s ensures x in Reverse(s) {
      var i :| 0 <= i < |s| && s[i] == x;
      assert Reverse(s)[|s| - 1 - i] == x;
    }
  }

  lemma {:induction false} AllInterfacesMeaning(t: ClassInformation)
    ensures forall x :: x in AllInterfaces(t) <==> x in Took(t)
    decreases t
  {
    if t.baseType.Some? { AllInterfacesMeaning(t.baseType.value); }
  }

  lemma {:induction false} InterfaceTypesMeaning(t: ClassInformation)
    ensures IsDistinct(InterfaceTypes(t)) && forall x :: x in InterfaceTypes(t) <==> x in Took(t)
  {
    AllInterfacesMeaning(t);
    WithoutRepetitionMeaning(AllInterfaces(t));
    ReverseMeaning(WithoutRepetition(AllInterfaces(t)));
  }

  /** The runtime type written for a class; the linker decides where its vtables are. */
  function ClassDescriptor(t: ClassInformation, vtableOf: (string, string) -> nat): Descriptor
    decreases t
  {
    var names := InterfaceTypes(t);
    InterfaceTypesMeaning(t);
    Descriptor(t.name, false, false, StructSize(Members(t)), vtableOf(t.name, ""),
               seq(|names|, i requires 0 <= i < |names| => assert names[i] in names; Implemented(names[i], vtableOf(t.name, names[i]), AdjustorOffset(t, names[i]))),
               if t.baseType.Some? then Some(ClassDescriptor(t.baseType.value, vtableOf)) else None)
  }

  /** The runtime type written for a value type: in a box, the interface vptrs come behind the data. */
  function BoxedDescriptor(t: ClassInformation, size: nat, vtableOf: (string, string) -> nat): Descriptor {
    var names := InterfaceTypes(t);
    Descriptor(t.name, false, true, size, vtableOf(t.name, ""),
               seq(|names|, i requires 0 <= i < |names| => Implemented(names[i], vtableOf(t.name, names[i]), WORD + size + i * WORD)),
               if t.baseType.Some? then Some(ClassDescriptor(t.baseType.value, vtableOf)) else None)
  }

  /** What an object of this type takes behind its header. */
  function AllocatedSize(d: Descriptor): nat {
    if d.isValue then WORD + d.bodySize + |d.interfaces| * WORD else d.bodySize
  }

  /** Interface vptrs are inside the object, behind vptr0 and the value's data, and apart from one another; and the entries
      of base types are kept, at their places. */
  ghost predicate IsLaidOut(d: Descriptor) {
    && WORD <= AllocatedSize(d)
    && (forall e :: e in d.interfaces ==>
          (if d.isValue then WORD + d.bodySize else WORD) <= e.offset && e.offset + WORD <= AllocatedSize(d))
    && (forall i, j :: 0 <= i < j < |d.interfaces| ==> AreApart(d.interfaces[i].offset, WORD, d.interfaces[j].offset, WORD))
    && KeepsBase(d)
  }

  ghost predicate KeepsBase(d: Descriptor)
    decreases d
  {
    d.baseType.Some? ==>
      && KeepsBase(d.baseType.value)
      && forall e :: e in d.baseType.value.interfaces ==> HasEntry(d, e.name, e.offset)
  }

  ghost predicate HasEntry(d: Descriptor, name: string, offset: nat) {
    exists i :: 0 <= i < |d.interfaces| && d.interfaces[i].name == name && d.interfaces[i].offset == offset
  }

  /** Every class has a proper layout. */
  lemma {:induction false} ClassIsLaidOut(t: ClassInformation, vtableOf: (string, string) -> nat)
    ensures IsLaidOut(ClassDescriptor(t, vtableOf))
  {
    hide AdjustorOffset, Members, Took, InterfaceTypes, StructSize;
    var d, names := ClassDescriptor(t, vtableOf), InterfaceTypes(t);
    InterfaceTypesMeaning(t);
    forall i | 0 <= i < |names|
      ensures WORD <= d.interfaces[i].offset && d.interfaces[i].offset + WORD <= d.bodySize
    {
      assert names[i] in names;
      SlotInside(t, names[i]);
    }
    forall i, j | 0 <= i < j < |names|
      ensures AreApart(d.interfaces[i].offset, WORD, d.interfaces[j].offset, WORD)
    {
      assert names[i] in names && names[j] in names;
      SlotsAreSeparate(t, names[i], names[j]);
    }
    ClassKeepsBase(t, vtableOf);
  }

  lemma {:induction false} ClassKeepsBase(t: ClassInformation, vtableOf: (string, string) -> nat)
    ensures KeepsBase(ClassDescriptor(t, vtableOf))
    decreases t
  {
    var d := ClassDescriptor(t, vtableOf);
    if t.baseType.Some? {
      ClassKeepsBase(t.baseType.value, vtableOf);
      InterfaceTypesMeaning(t);
      InterfaceTypesMeaning(t.baseType.value);
      forall e | e in d.baseType.value.interfaces ensures HasEntry(d, e.name, e.offset) {
        BaseSlotStays(t, e.name);
        var i :| 0 <= i < |InterfaceTypes(t)| && InterfaceTypes(t)[i] == e.name;
        assert d.interfaces[i].name == e.name;
      }
    }
  }

  /** Every boxed value has a proper layout, provided that System.ValueType implements no interface. */
  lemma ValueIsLaidOut(t: ClassInformation, size: nat, vtableOf: (string, string) -> nat)
    requires t.baseType.Some? ==> Took(t.baseType.value) == {}
    ensures IsLaidOut(BoxedDescriptor(t, size, vtableOf))
  {
    var d, names := BoxedDescriptor(t, size, vtableOf), InterfaceTypes(t);
    forall i | 0 <= i < |names|
      ensures WORD + size <= d.interfaces[i].offset && d.interfaces[i].offset + WORD <= AllocatedSize(d)
    {
      assert (i + 1) * WORD <= |names| * WORD;
    }
    forall i, j | 0 <= i < j < |names| ensures AreApart(d.interfaces[i].offset, WORD, d.interfaces[j].offset, WORD) {
      assert (i + 1) * WORD <= j * WORD;
    }
    if t.baseType.Some? {
      ClassKeepsBase(t.baseType.value, vtableOf);
      InterfaceTypesMeaning(t.baseType.value);
      var b := d.baseType.value;
      assert |b.interfaces| > 0 ==> InterfaceTypes(t.baseType.value)[0] in InterfaceTypes(t.baseType.value);
    }
  }
}
