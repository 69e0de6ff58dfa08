/** Multicast delegates as arrays of method entries (IL2C.Runtime/src/System/Delegate.c). */
module Delegates {
  /** IL2C_METHOD_TABLE: a target object, 0 for static methods, and a method. */
  datatype MethodEntry = MethodEntry(target: nat, methodPtr: nat)

  class Delegate {
    const typeName: string
    const methodtbl: array<MethodEntry>

    predicate Valid()
      reads this
    {
      methodtbl.Length >= 1
    }

    constructor (typeName: string, methodtbl: array<MethodEntry>)
      ensures this.typeName == typeName && this.methodtbl == methodtbl
    {
      this.typeName, this.methodtbl := typeName, methodtbl;
    }
  }

  /** The invocation list; NULL has none. */
  function Methods(d: Delegate?): seq<MethodEntry>
    reads d, if d != null then {d.methodtbl} else {}
  {
    if d == null then [] else d.methodtbl[..]
  }

  predicate OccursAt(s: seq<MethodEntry>, v: seq<MethodEntry>, i: nat) {
    i + |v| <= |s| && s[i..i + |v|] == v
  }

  ghost predicate IsLastOccurrence(s: seq<MethodEntry>, v: seq<MethodEntry>, i: nat) {
    OccursAt(s, v, i) && forall j: nat :: i < j ==> !OccursAt(s, v, j)
  }

  ghost predicate IsRemoved(s: seq<MethodEntry>, v: seq<MethodEntry>, r: seq<MethodEntry>) {
    if v == [] || forall i: nat :: !OccursAt(s, v, i) then r == s
    else exists i: nat :: IsLastOccurrence(s, v, i) && r == s[..i] + s[i + |v|..]
  }

  /** Combine is concatenation; a NULL operand gives the other operand itself. */
  method Combine(a: Delegate?, b: Delegate?) returns (r: Delegate?)
    requires (a != null ==> a.Valid()) && (b != null ==> b.Valid())
    requires a != null && b != null ==> a.typeName == b.typeName
    ensures Methods(r) == Methods(a) + Methods(b)
    ensures a == null ==> r == b
    ensures b == null ==> r == a
    ensures a != null && b != null ==> r != null && fresh(r) && fresh(r.methodtbl) && r.typeName == a.typeName
    ensures r != null ==> r.Valid()
  {
    if a == null { return b; }
    if b == null { return a; }
    var n := a.methodtbl.Length;
    var count := n + b.methodtbl.Length;
    var table := new MethodEntry[count](_ => MethodEntry(0, 0));
    forall i | 0 <= i < n { table[i] := a.methodtbl[i]; }
    forall i | 0 <= i < b.methodtbl.Length { table[n + i] := b.methodtbl[i]; }
    r := new Delegate(a.typeName, table);
  }

  /** A new delegate without the entries from index on. */
  method CutOut(source: Delegate, index: nat, length: nat) returns (r: Delegate)
    requires index + length <= source.methodtbl.Length && length < source.methodtbl.Length
    ensures fresh(r) && fresh(r.methodtbl) && r.Valid() && r.typeName == source.typeName
    ensures Methods(r) == Methods(source)[..index] + Methods(source)[index + length..]
  {
    var s := source.methodtbl;
    var count := s.Length - length;
    var table := new MethodEntry[count](_ => MethodEntry(0, 0));
    forall i | 0 <= i < index { table[i] := s[i]; }
    forall i | index <= i < count { table[i] := s[i + length]; }
    assert table[..] == s[..][..index] + s[..][index + length..];
    r := new Delegate(source.typeName, table);
  }

  /** Remove takes the last occurrence of the value's list out of the source's list. */
  method Remove(source: Delegate?, value: Delegate?) returns (r: Delegate?)
    requires (source != null ==> source.Valid()) && (value != null ==> value.Valid())
    requires source != null && value != null ==> source.typeName == value.typeName
    ensures IsRemoved(Methods(source), Methods(value), Methods(r))
    ensures Methods(r) == Methods(source) ==> r == source
    ensures Methods(r) == [] ==> r == null
    ensures r != null ==> r.Valid() && (r == source || (fresh(r) && fresh(r.methodtbl) && r.typeName == source.typeName))
  {
    if source == null { return null; }
    if value == null { return source; }
    var s, v := source.methodtbl, value.methodtbl;
    if s.Length < v.Length { return source; }
    var index: int := s.Length - v.Length;
    while index >= 0
      invariant -1 <= index <= s.Length - v.Length
      invariant forall j: nat :: index < j ==> !OccursAt(s[..], v[..], j)
    {
      if v[..] == s[index..index + v.Length] {
        assert s[..][index..index + v.Length] == s[index..index + v.Length];
        assert IsLastOccurrence(s[..], v[..], index);
        if s.Length <= v.Length { return null; }
        r := CutOut(source, index, v.Length);
        return;
      }
      assert !OccursAt(s[..], v[..], index) by { assert s[..][index..index + v.Length] == s[index..index + v.Length]; }
      index := index - 1;
    }
    return source;
  }

  /** What remains after a removal is determined. */
  lemma RemovedIsUnique(s: seq<MethodEntry>, v: seq<MethodEntry>, r: seq<MethodEntry>, t: seq<MethodEntry>)
    requires IsRemoved(s, v, r) && IsRemoved(s, v, t)
    ensures r == t
  {
    if v != [] && exists i: nat :: OccursAt(s, v, i) {
      var i: nat :| IsLastOccurrence(s, v, i) && r == s[..i] + s[i + |v|..];
      var j: nat :| IsLastOccurrence(s, v, j) && t == s[..j] + s[j + |v|..];
      assert i == j;
    }
  }

  /** Removing what was combined last gives the first operand back. */
  lemma RemoveUndoesCombine(a: seq<MethodEntry>, b: seq<MethodEntry>, r: seq<MethodEntry>)
    requires IsRemoved(a + b, b, r)
    ensures r == a
  {
    if b == [] {
      assert a + b == a;
    } else {
      assert (a + b)[|a|..|a| + |b|] == b;
      assert IsLastOccurrence(a + b, b, |a|);
      var i: nat :| IsLastOccurrence(a + b, b, i) && r == (a + b)[..i] + (a + b)[i + |b|..];
      assert i == |a|;
    }
  }

  /** A removal that finds something takes exactly the value's entries away. */
  lemma RemoveTakesValue(s: seq<MethodEntry>, v: seq<MethodEntry>, i: nat, r: seq<MethodEntry>)
    requires IsRemoved(s, v, r) && OccursAt(s, v, i)
    ensures multiset(r) + multiset(v) == multiset(s)
  {
    if v == [] {
      assert multiset(v) == multiset{};
    } else {
      var k: nat :| IsLastOccurrence(s, v, k) && r == s[..k] + s[k + |v|..];
      assert s == s[..k] + (v + s[k + |v|..]);
    }
  }
}
