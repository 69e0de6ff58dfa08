/** Interleavings of atomic steps by any number of threads: the collection gate
    (IL2C.Runtime/src/Core/il2c_gc.c) and the lock-free linking of headers (IL2C.Runtime/src/Core/il2c_allocator.c). */
module Interleavings {
  // ---------------------------------------------------------------------------------------------
  // The gate around il2c_collect__

  /** Where a thread is: outside, past the increment that let it in, or past one that turned it away. */
  datatype Place = Outside | Collecting | TurnedAway

  datatype Gate = Gate(executingCollection: int, threads: seq<Place>)

  function Count(threads: seq<Place>, p: Place): nat {
    if threads == [] then 0 else Count(threads[1..], p) + if threads[0] == p then 1 else 0
  }

  lemma {:induction false} CountUpdate(threads: seq<Place>, i: nat, p: Place, q: Place)
    requires i < |threads|
    ensures Count(threads[i := p], q) == Count(threads, q) - (if threads[i] == q then 1 else 0) + (if p == q then 1 else 0)
  {
    if i > 0 {
      assert threads[i := p][1..] == threads[1..][i - 1 := p];
      CountUpdate(threads[1..], i - 1, p, q);
    } else {
      assert threads[i := p][1..] == threads[1..];
    }
  }

  /** The counter is the number of threads between their increment and their decrement; at most one collects. */
  ghost predicate GateHolds(g: Gate) {
    && g.executingCollection == Count(g.threads, Collecting) + Count(g.threads, TurnedAway)
    && Count(g.threads, Collecting) <= 1
  }

  /** One atomic step of thread i: increment and test, or decrement. */
  function GateStep(g: Gate, i: nat): Gate
    requires i < |g.threads|
  {
    match g.threads[i]
    case Outside =>
      var n := g.executingCollection + 1;
      Gate(n, g.threads[i := if n >= 2 then TurnedAway else Collecting])
    case Collecting => Gate(g.executingCollection - 1, g.threads[i := Outside])
    case TurnedAway => Gate(g.executingCollection - 1, g.threads[i := Outside])
  }

  lemma GateStepHolds(g: Gate, i: nat)
    requires GateHolds(g) && i < |g.threads|
    ensures GateHolds(GateStep(g, i))
  {
    var p := GateStep(g, i).threads[i];
    CountUpdate(g.threads, i, p, Collecting);
    CountUpdate(g.threads, i, p, TurnedAway);
  }

  /** The state after a schedule: which thread moves when. */
  function GateRun(g: Gate, schedule: seq<nat>): Gate
    requires forall k :: 0 <= k < |schedule| ==> schedule[k] < |g.threads|
    ensures |GateRun(g, schedule).threads| == |g.threads|
  {
    if schedule == [] then g
    else GateStep(GateRun(g, schedule[..|schedule| - 1]), schedule[|schedule| - 1])
  }

  lemma {:induction false} GateAlwaysHolds(g: Gate, schedule: seq<nat>)
    requires g.executingCollection == 0 && forall i :: 0 <= i < |g.threads| ==> g.threads[i] == Outside
    requires forall k :: 0 <= k < |schedule| ==> schedule[k] < |g.threads|
    ensures GateHolds(GateRun(g, schedule))
  {
    if schedule == [] {
      NobodyInside(g.threads);
    } else {
      GateAlwaysHolds(g, schedule[..|schedule| - 1]);
      GateStepHolds(GateRun(g, schedule[..|schedule| - 1]), schedule[|schedule| - 1]);
    }
  }

  lemma {:induction false} NobodyInside(threads: seq<Place>)
    requires forall i :: 0 <= i < |threads| ==> threads[i] == Outside
    ensures Count(threads, Collecting) == 0 && Count(threads, TurnedAway) == 0
  {
    if threads != [] { NobodyInside(threads[1..]); }
  }

  lemma {:induction false} CountBound(threads: seq<Place>, p: Place, i: nat, j: nat)
    requires i < j < |threads| && threads[i] == p && threads[j] == p
    ensures Count(threads, p) >= 2
  {
    if i == 0 {
      CountPositive(threads[1..], p, j - 1);
    } else {
      CountBound(threads[1..], p, i - 1, j - 1);
    }
  }

  lemma {:induction false} CountPositive(threads: seq<Place>, p: Place, i: nat)
    requires i < |threads| && threads[i] == p
    ensures Count(threads, p) >= 1
  {
    if i > 0 { CountPositive(threads[1..], p, i - 1); }
  }

  /** No two threads are ever in a collection at the same time, whatever the schedule. */
  lemma {:induction false} MutualExclusion(g: Gate, schedule: seq<nat>, i: nat, j: nat)
    requires g.executingCollection == 0 && forall k :: 0 <= k < |g.threads| ==> g.threads[k] == Outside
    requires forall k :: 0 <= k < |schedule| ==> schedule[k] < |g.threads|
    requires i < |g.threads| && j < |g.threads|
    requires GateRun(g, schedule).threads[i] == Collecting && GateRun(g, schedule).threads[j] == Collecting
    ensures i == j
  {
    GateAlwaysHolds(g, schedule);
    var t := GateRun(g, schedule).threads;
    if i < j { CountBound(t, Collecting, i, j); }
    if j < i { CountBound(t, Collecting, j, i); }
  }

  lemma {:induction false} EveryoneCounts(threads: seq<Place>)
    ensures Count(threads, Collecting) + Count(threads, TurnedAway) == 0 <==> forall j :: 0 <= j < |threads| ==> threads[j] == Outside
  {
    if threads != [] {
      EveryoneCounts(threads[1..]);
      assert forall j :: 0 < j < |threads| ==> threads[j] == threads[1..][j - 1];
      assert forall j :: 0 <= j < |threads| - 1 ==> threads[1..][j] == threads[j + 1];
    }
  }

  /** After every schedule: a thread that comes is let in if and only if nobody else is inside or being turned away;
      otherwise it is turned away. A thread that is past its increment goes out again. Others do not move. */
  lemma {:induction false} LetsIn(g: Gate, schedule: seq<nat>, i: nat)
    requires g.executingCollection == 0 && forall k :: 0 <= k < |g.threads| ==> g.threads[k] == Outside
    requires (forall k :: 0 <= k < |schedule| ==> schedule[k] < |g.threads|) && i < |g.threads|
    ensures
      var t := GateRun(g, schedule);
      var n := GateStep(t, i);
      && |n.threads| == |t.threads| && (forall j :: 0 <= j < |t.threads| && j != i ==> n.threads[j] == t.threads[j])
      && (if t.threads[i] != Outside then n.threads[i] == Outside
          else if forall j :: 0 <= j < |t.threads| && j != i ==> t.threads[j] == Outside then n.threads[i] == Collecting
          else n.threads[i] == TurnedAway)
  {
    var t := GateRun(g, schedule);
    GateAlwaysHolds(g, schedule);
    EveryoneCounts(t.threads);
    if t.threads[i] == Outside {
      assert (forall j :: 0 <= j < |t.threads| && j != i ==> t.threads[j] == Outside) <==>
             (forall j :: 0 <= j < |t.threads| ==> t.threads[j] == Outside);
    }
  }

  function Repeated(i: nat, k: nat): (r: seq<nat>)
    ensures |r| == k && forall x :: 0 <= x < k ==> r[x] == i
  {
    seq(k, _ => i)
  }

  /** A thread that moves alone collects, goes out, collects again, and so on. */
  lemma {:induction false} AloneAlternates(g: Gate, i: nat, k: nat)
    requires g.executingCollection == 0 && i < |g.threads| && forall j :: 0 <= j < |g.threads| ==> g.threads[j] == Outside
    ensures
      var t := GateRun(g, Repeated(i, k));
      && t.threads[i] == (if k % 2 == 0 then Outside else Collecting)
      && forall j :: 0 <= j < |g.threads| && j != i ==> t.threads[j] == Outside
  {
    if k > 0 {
      AloneAlternates(g, i, k - 1);
      var s := Repeated(i, k);
      assert s[..k - 1] == Repeated(i, k - 1);
      LetsIn(g, s[..k - 1], i);
    }
  }

  // ---------------------------------------------------------------------------------------------
  // Linking headers by compare-and-exchange, without a sweep running

  /** A push: not started or to be retried, with the head it has read, or done. */
  datatype Push = Waiting | HasRead(seen: nat) | Linked

  datatype List = List(begin: nat, next: map<nat, nat>, pushes: seq<Push>)

  ghost predicate IsChain(next: map<nat, nat>, begin: nat, l: seq<nat>)
    decreases |l|
  {
    if l == [] then begin == 0
    else begin == l[0] && begin != 0 && begin in next && begin !in l[1..] && IsChain(next, next[begin], l[1..])
  }

  /** The list l holds the old headers and exactly the headers whose push is done, each once. */
  ghost predicate ListHolds(s: List, headers: seq<nat>, initial: seq<nat>, l: seq<nat>) {
    && |s.pushes| == |headers| && IsChain(s.next, s.begin, l)
    && |initial| <= |l| && l[|l| - |initial|..] == initial
    && (forall x :: x in l <==> x in initial || IsLinked(s, headers, x))
    && (forall i :: 0 <= i < |headers| && s.pushes[i].HasRead? ==>
          headers[i] in s.next && s.next[headers[i]] == s.pushes[i].seen)
  }

  ghost predicate IsLinked(s: List, headers: seq<nat>, x: nat) {
    exists i :: 0 <= i < |s.pushes| && i < |headers| && headers[i] == x && s.pushes[i].Linked?
  }

  /** New headers: distinct, not NULL and not in the old list. */
  ghost predicate AreNew(headers: seq<nat>, initial: seq<nat>) {
    && (forall i, j :: 0 <= i < j < |headers| ==> headers[i] != headers[j])
    && (forall i :: 0 <= i < |headers| ==> headers[i] != 0 && headers[i] !in initial)
  }

  /** One atomic step of push i: read the head into the header's link, or compare and exchange; a failure retries. */
  function PushStep(s: List, headers: seq<nat>, i: nat): List
    requires i < |s.pushes| == |headers|
  {
    match s.pushes[i]
    case Waiting => List(s.begin, s.next[headers[i] := s.begin], s.pushes[i := HasRead(s.begin)])
    case HasRead(seen) =>
      if s.begin == seen then List(headers[i], s.next, s.pushes[i := Linked])
      else List(s.begin, s.next, s.pushes[i := Waiting])
    case Linked => s
  }

  lemma {:induction false} ChainElsewhere(next: map<nat, nat>, begin: nat, l: seq<nat>, a: nat, b: nat)
    requires IsChain(next, begin, l) && a !in l
    ensures IsChain(next[a := b], begin, l)
    decreases |l|
  {
    if l != [] { ChainElsewhere(next, next[begin], l[1..], a, b); }
  }

  /** A successful exchange puts the header in front. */
  lemma ExchangeHolds(s: List, headers: seq<nat>, initial: seq<nat>, l: seq<nat>, i: nat)
    requires ListHolds(s, headers, initial, l) && AreNew(headers, initial) && i < |headers|
    requires s.pushes[i].HasRead? && s.begin == s.pushes[i].seen
    ensures ListHolds(PushStep(s, headers, i), headers, initial, [headers[i]] + l)
  {
    hide IsLinked;
    var t, k := PushStep(s, headers, i), [headers[i]] + l;
    NotYetLinked(s, headers, i);
    assert k[1..] == l && k[|k| - |initial|..] == l[|l| - |initial|..];
    forall x ensures x in k <==> x in initial || IsLinked(t, headers, x) {
      LinkedAfter(s, t, headers, i, x);
    }
  }

  lemma NotYetLinked(s: List, headers: seq<nat>, i: nat)
    requires |s.pushes| == |headers| && i < |headers| && !s.pushes[i].Linked?
    requires forall j, k :: 0 <= j < k < |headers| ==> headers[j] != headers[k]
    ensures !IsLinked(s, headers, headers[i])
  {
  }

  /** Reading the head, or finding it changed, leaves the list as it is. */
  lemma RetryHolds(s: List, headers: seq<nat>, initial: seq<nat>, l: seq<nat>, i: nat)
    requires ListHolds(s, headers, initial, l) && AreNew(headers, initial) && i < |headers|
    requires s.pushes[i].Waiting? || (s.pushes[i].HasRead? && s.begin != s.pushes[i].seen)
    ensures ListHolds(PushStep(s, headers, i), headers, initial, l)
  {
    hide IsLinked;
    var t := PushStep(s, headers, i);
    NotYetLinked(s, headers, i);
    if s.pushes[i].Waiting? { ChainElsewhere(s.next, s.begin, l, headers[i], s.begin); }
    forall x ensures IsLinked(t, headers, x) <==> IsLinked(s, headers, x) {
      LinkedAfter(s, t, headers, i, x);
    }
  }

  /** A step leaves the list as it is or puts the finished header in front. */
  lemma PushStepHolds(s: List, headers: seq<nat>, initial: seq<nat>, l: seq<nat>, i: nat) returns (l': seq<nat>)
    requires ListHolds(s, headers, initial, l) && AreNew(headers, initial) && i < |headers|
    ensures ListHolds(PushStep(s, headers, i), headers, initial, l')
    ensures l' == l || l' == [headers[i]] + l
  {
    hide ListHolds, AreNew;
    l' := l;
    assert |s.pushes| == |headers| by { SameLength(s, headers, initial, l); }
    if s.pushes[i].Linked? {
      return;
    }
    if s.pushes[i].HasRead? && s.begin == s.pushes[i].seen {
      ExchangeHolds(s, headers, initial, l, i);
      l' := [headers[i]] + l;
    } else {
      RetryHolds(s, headers, initial, l, i);
    }
  }

  lemma SameLength(s: List, headers: seq<nat>, initial: seq<nat>, l: seq<nat>)
    requires ListHolds(s, headers, initial, l)
    ensures |s.pushes| == |headers|
  {
  }

  lemma LinkedAfter(s: List, t: List, headers: seq<nat>, i: nat, x: nat)
    requires |s.pushes| == |t.pushes| == |headers| && i < |headers| && !s.pushes[i].Linked?
    requires forall j :: 0 <= j < |headers| && j != i ==> t.pushes[j] == s.pushes[j]
    ensures IsLinked(t, headers, x) <==> IsLinked(s, headers, x) || (t.pushes[i].Linked? && x == headers[i])
  {
    if j :| 0 <= j < |headers| && headers[j] == x && s.pushes[j].Linked? { assert t.pushes[j].Linked?; }
    if j :| 0 <= j < |headers| && headers[j] == x && t.pushes[j].Linked? { assert j == i || s.pushes[j].Linked?; }
    if t.pushes[i].Linked? { assert headers[i] == headers[i]; }
  }

  function PushRun(s: List, headers: seq<nat>, schedule: seq<nat>): (t: List)
    requires |s.pushes| == |headers| && forall k :: 0 <= k < |schedule| ==> schedule[k] < |headers|
    ensures |t.pushes| == |headers|
  {
    if schedule == [] then s
    else PushStep(PushRun(s, headers, schedule[..|schedule| - 1]), headers, schedule[|schedule| - 1])
  }

  /** Whatever the schedule, no completed push is lost or doubled, and the initial list stays a suffix. */
  lemma {:induction false} NoPushIsLost(s: List, headers: seq<nat>, initial: seq<nat>, schedule: seq<nat>) returns (l: seq<nat>)
    requires ListHolds(s, headers, initial, initial) && AreNew(headers, initial)
    requires forall k :: 0 <= k < |schedule| ==> schedule[k] < |headers|
    ensures ListHolds(PushRun(s, headers, schedule), headers, initial, l)
  {
    if schedule == [] {
      l := initial;
    } else {
      var before := NoPushIsLost(s, headers, initial, schedule[..|schedule| - 1]);
      l := PushStepHolds(PushRun(s, headers, schedule[..|schedule| - 1]), headers, initial, before, schedule[|schedule| - 1]);
    }
  }

  /** From any moment on, the list only grows in front. */
  lemma {:induction false} RunExtends(s: List, headers: seq<nat>, initial: seq<nat>, l: seq<nat>, schedule: seq<nat>) returns (l': seq<nat>)
    requires ListHolds(s, headers, initial, l) && AreNew(headers, initial)
    requires forall k :: 0 <= k < |schedule| ==> schedule[k] < |headers|
    ensures ListHolds(PushRun(s, headers, schedule), headers, initial, l')
    ensures |l| <= |l'| && l'[|l'| - |l|..] == l
  {
    hide ListHolds, AreNew;
    assert |s.pushes| == |headers| by { SameLength(s, headers, initial, l); }
    if schedule == [] {
      l' := l;
    } else {
      var before := RunExtends(s, headers, initial, l, schedule[..|schedule| - 1]);
      l' := PushStepHolds(PushRun(s, headers, schedule[..|schedule| - 1]), headers, initial, before, schedule[|schedule| - 1]);
    }
  }

  /** A completed push stays completed, and the head of the list changes only when a push completes. */
  lemma {:induction false} HeadMoves(s: List, headers: seq<nat>, schedule: seq<nat>)
    requires |s.pushes| == |headers| && forall k :: 0 <= k < |schedule| ==> schedule[k] < |headers|
    ensures
      var t := PushRun(s, headers, schedule);
      && (forall j :: 0 <= j < |headers| && s.pushes[j].Linked? ==> t.pushes[j].Linked?)
      && (t.begin != s.begin ==> exists j :: 0 <= j < |headers| && t.pushes[j].Linked? && !s.pushes[j].Linked?)
  {
    if schedule != [] {
      var before, i := PushRun(s, headers, schedule[..|schedule| - 1]), schedule[|schedule| - 1];
      var t := PushStep(before, headers, i);
      HeadMoves(s, headers, schedule[..|schedule| - 1]);
      if t.begin != before.begin {
        assert t.pushes[i].Linked? && !s.pushes[i].Linked?;
      } else if t.begin != s.begin {
        var j :| 0 <= j < |headers| && before.pushes[j].Linked? && !s.pushes[j].Linked?;
        assert t.pushes[j].Linked? && !s.pushes[j].Linked?;
      }
    }
  }

  lemma {:induction false} ChainHeadIsNew(next: map<nat, nat>, begin: nat, l: seq<nat>, earlier: seq<nat>)
    requires IsChain(next, begin, l) && |earlier| < |l| && l[|l| - |earlier|..] == earlier
    ensures begin != 0 && begin !in earlier
  {
    forall x | x in earlier ensures x in l[1..] {
      var i :| 0 <= i < |earlier| && earlier[i] == x;
      assert l[1..][|l| - |earlier| + i - 1] == x;
    }
  }

  /** The exchange of a push that has read the head succeeds if and only if no push has completed since. */
  lemma {:induction false} ExchangeSucceeds(s: List, headers: seq<nat>, initial: seq<nat>, l: seq<nat>, schedule: seq<nat>, i: nat)
    requires ListHolds(s, headers, initial, l) && AreNew(headers, initial) && i < |headers| && s.pushes[i] == HasRead(s.begin)
    requires forall k :: 0 <= k < |schedule| ==> schedule[k] < |headers| && schedule[k] != i
    ensures
      var t := PushRun(s, headers, schedule);
      && t.pushes[i] == s.pushes[i]
      && (PushStep(t, headers, i).pushes[i].Linked? <==> forall j :: 0 <= j < |headers| && t.pushes[j].Linked? ==> s.pushes[j].Linked?)
  {
    var t := PushRun(s, headers, schedule);
    OthersOnly(s, headers, schedule, i);
    HeadMoves(s, headers, schedule);
    var l' := RunExtends(s, headers, initial, l, schedule);
    if j :| 0 <= j < |headers| && t.pushes[j].Linked? && !s.pushes[j].Linked? {
      assert IsLinked(t, headers, headers[j]);
      NotYetLinked(s, headers, j);
      assert headers[j] in l' && headers[j] !in l;
      assert |l'| == |l| ==> l' == l;
      ChainHeadIsNew(t.next, t.begin, l', l);
      assert s.begin == 0 || s.begin in l;
    }
  }

  lemma {:induction false} OthersOnly(s: List, headers: seq<nat>, schedule: seq<nat>, i: nat)
    requires |s.pushes| == |headers| && i < |headers|
    requires forall k :: 0 <= k < |schedule| ==> schedule[k] < |headers| && schedule[k] != i
    ensures PushRun(s, headers, schedule).pushes[i] == s.pushes[i]
  {
    if schedule != [] { OthersOnly(s, headers, schedule[..|schedule| - 1], i); }
  }

  /** A push that moves alone is done after two steps, and its header is the head of the list. */
  lemma {:induction false} PushAlone(s: List, headers: seq<nat>, i: nat)
    requires |s.pushes| == |headers| && i < |headers| && s.pushes[i].Waiting?
    ensures var t := PushRun(s, headers, [i, i]); t.pushes[i].Linked? && t.begin == headers[i] && headers[i] in t.next && t.next[headers[i]] == s.begin
  {
    assert [i, i][..1] == [i] && [i][..0] == [];
    assert PushRun(s, headers, [i]) == PushStep(s, headers, i);
  }
}
