/** Strictly ascending sequences of indices. */
module Ascending {
  ghost predicate IsAscending(s: seq<nat>) { forall i, j :: 0 <= i < j < |s| ==> s[i] < s[j] }

  lemma LastIsLargest(s: seq<nat>)
    requires IsAscending(s) && s != []
    ensures
      var init, x := s[..|s| - 1], s[|s| - 1];
      && IsAscending(init) && s == init + [x] && x in s
      && (forall i :: i in s ==> i <= x) && (forall i :: i in init <==> i in s && i < x)
  {
    var init, x := s[..|s| - 1], s[|s| - 1];
    forall i | i in s ensures i <= x && (i < x ==> i in init) {
      var k :| 0 <= k < |s| && s[k] == i;
      if k < |s| - 1 { assert init[k] == i; }
    }
  }

  lemma EmptyIfNoMember(s: seq<nat>)
    ensures s == [] <==> forall i: nat :: i !in s
  {
    assert s != [] ==> s[0] in s;
  }

  /** An ascending sequence is determined by its members. */
  lemma {:induction false} AscendingIsUnique(s: seq<nat>, t: seq<nat>)
    requires IsAscending(s) && IsAscending(t) && (forall i :: i in s <==> i in t)
    ensures s == t
    decreases |s|
  {
    hide IsAscending;
    if s != [] && t != [] {
      LastIsLargest(s);
      LastIsLargest(t);
      AscendingIsUnique(s[..|s| - 1], t[..|t| - 1]);
    } else {
      EmptyIfNoMember(s);
      EmptyIfNoMember(t);
    }
  }

  /** How many members lie below a bound. */
  function Below(t: seq<nat>, n: nat): (k: nat)
    ensures k <= |t|
  {
    if t == [] then 0 else if t[|t| - 1] < n then |t| else Below(t[..|t| - 1], n)
  }

  lemma {:induction false} BelowMembers(t: seq<nat>, n: nat)
    requires IsAscending(t)
    ensures IsAscending(t[..Below(t, n)])
    ensures forall p :: p in t[..Below(t, n)] <==> p in t && p < n
  {
    hide IsAscending;
    if t != [] {
      LastIsLargest(t);
      if t[|t| - 1] < n {
        assert t[..|t|] == t;
      } else {
        BelowMembers(t[..|t| - 1], n);
        assert t[..|t| - 1][..Below(t, n)] == t[..Below(t, n)];
      }
    }
  }

  /** The members of an ascending sequence below a bound are its first ones. */
  lemma AscendingPrefix(s: seq<nat>, t: seq<nat>, n: nat)
    requires IsAscending(s) && IsAscending(t) && forall p :: p in s <==> p in t && p < n
    ensures |s| <= |t| && s == t[..|s|]
  {
    hide IsAscending, Below;
    BelowMembers(t, n);
    AscendingIsUnique(s, t[..Below(t, n)]);
  }
}
