/** Unwinding with linked exception frames and long jumps (IL2C.Runtime/src/Core/il2c_exception.c and the
    il2c_try macros of IL2C.Runtime/include/il2c.h). */
module ExceptionRuntime {
  import opened Arithmetic
  import opened Wrappers
  import opened Exceptions
  import opened Unwinding

  /** Addresses of exception frames; 0 is NULL. */
  type Addr = nat

  /** IL2C_EXCEPTION_FRAME; pFrame is the chain of execution frames at the time of linking, innermost first. */
  datatype Frame = Frame(pNext: Addr, pFrame: seq<nat>, ex: Option<Exc>, filter: Filter)

  type Frames = map<Addr, Frame>

  /** How a piece of C code is left: normally, by a long jump to a frame, with an unhandled exception, or not followed
      further because a frame that runs its handler has been jumped to and its handler has been entered again. */
  datatype Exit = Normal | Jump(target: Addr, number: int) | Unhandled(ex: Exc) | Reentered

  predicate IsSuffix(s: seq<nat>, t: seq<nat>) { |s| <= |t| && t[|t| - |s|..] == s }

  /** The frames linked from head on, each with a saved execution chain that the inner ones extend. */
  ghost predicate FrameChain(m: Frames, head: Addr, c: seq<Addr>, pFrame: seq<nat>)
    decreases |c|
  {
    if c == [] then head == 0 else
      && head == c[0] && head != 0 && head in m && head !in c[1..]
      && m[head].pFrame != [] && IsSuffix(m[head].pFrame, pFrame)
      && FrameChain(m, m[head].pNext, c[1..], m[head].pFrame)
  }

  /** The frame a scan must find: the first one whose filter does not decline. */
  ghost function Landing(m: Frames, c: seq<Addr>, ex: Exc): Addr
    requires forall a :: a in c ==> a in m
  {
    if c == [] then 0 else if FilterNumber(m[c[0]].filter, ex) != FILTER_NOMATCH then c[0] else Landing(m, c[1..], ex)
  }

  /** Every frame on the chain is allocated. */
  lemma {:induction false} ChainIn(m: Frames, head: Addr, c: seq<Addr>, pFrame: seq<nat>)
    requires FrameChain(m, head, c, pFrame)
    ensures forall a :: a in c ==> a in m && a != 0 && m[a].pFrame != [] && IsSuffix(m[a].pFrame, pFrame)
    decreases |c|
  {
    if c != [] {
      ChainIn(m, m[head].pNext, c[1..], m[head].pFrame);
      forall a | a in c ensures a in m && a != 0 && m[a].pFrame != [] && IsSuffix(m[a].pFrame, pFrame) {
        if a != c[0] { assert a in c[1..]; SuffixTransitive(m[a].pFrame, m[head].pFrame, pFrame); }
      }
    }
  }

  lemma SuffixTransitive(a: seq<nat>, b: seq<nat>, c: seq<nat>)
    requires IsSuffix(a, b) && IsSuffix(b, c)
    ensures IsSuffix(a, c)
  {
    assert c[|c| - |a|..] == c[|c| - |b|..][|b| - |a|..];
  }

  lemma {:induction false} LandingIn(m: Frames, c: seq<Addr>, ex: Exc)
    requires forall a :: a in c ==> a in m && a != 0
    ensures var t := Landing(m, c, ex); t != 0 ==> t in c && FilterNumber(m[t].filter, ex) != FILTER_NOMATCH
    ensures Landing(m, c, ex) == 0 ==> forall a :: a in c ==> FilterNumber(m[a].filter, ex) == FILTER_NOMATCH
  {
    if c != [] {
      assert c[0] in c && (forall a :: a in c ==> a == c[0] || a in c[1..]) && (forall a :: a in c[1..] ==> a in c);
      LandingIn(m, c[1..], ex);
    }
  }

  /** Only the frames on the chain matter to it. */
  lemma {:induction false} ChainFrame(m: Frames, n: Frames, head: Addr, c: seq<Addr>, pFrame: seq<nat>)
    requires FrameChain(m, head, c, pFrame)
    requires forall a :: a in c && a in m ==> a in n && n[a].pNext == m[a].pNext && n[a].pFrame == m[a].pFrame
    ensures FrameChain(n, head, c, pFrame)
    decreases |c|
  {
    if c != [] {
      assert c[0] in c && forall a :: a in c[1..] ==> a in c;
      ChainFrame(m, n, m[head].pNext, c[1..], m[head].pFrame);
    }
  }

  /** The exception of the innermost active handler on the chain. */
  ghost function Nearest(m: Frames, c: seq<Addr>): Option<Exc>
    requires forall a :: a in c ==> a in m
  {
    if c == [] then None else if m[c[0]].ex.Some? then m[c[0]].ex else Nearest(m, c[1..])
  }

  predicate Matches(f: Frame, b: Block) { f.filter == b.filter && (f.ex.Some? <==> b.phase.Handling?) }

  /** The frames of the open blocks: filters in order, and an exception exactly where a handler was sent one. */
  ghost predicate Mirrors(m: Frames, c: seq<Addr>, blocks: seq<Block>) {
    |c| == |blocks| && forall i :: 0 <= i < |c| ==> c[i] in m && Matches(m[c[i]], blocks[i])
  }

  /** The thread's state while code inside these blocks runs. */
  ghost predicate Running(m: Frames, head: Addr, c: seq<Addr>, pFrame: seq<nat>, blocks: seq<Block>, caught: Option<Exc>) {
    && FrameChain(m, head, c, pFrame) && pFrame != [] && Mirrors(m, c, blocks) && (forall a :: a in c ==> a in m)
    && (caught.Some? ==> Nearest(m, c) == caught)
  }

  /** The frame that should receive the exception, skipping those that run their handlers. */
  ghost function ProperLanding(c: seq<Addr>, blocks: seq<Block>, ex: Exc): Addr
    requires |c| == |blocks|
  {
    var n := Proper(blocks, ex);
    if n == |c| then 0 else c[n]
  }

  /** The scan lands on the proper frame exactly if no running handler in front of it accepts the exception. */
  lemma {:induction false} LandsProperly(m: Frames, head: Addr, c: seq<Addr>, pFrame: seq<nat>, blocks: seq<Block>, ex: Exc)
    requires FrameChain(m, head, c, pFrame) && Mirrors(m, c, blocks) && forall a :: a in c ==> a in m
    ensures Landing(m, c, ex) == ProperLanding(c, blocks, ex) <==> IsClear(blocks, ex)
    ensures Landing(m, c, ex) == if Reached(blocks, ex) == |c| then 0 else c[Reached(blocks, ex)]
  {
    LandingReached(m, c, blocks, ex);
    ReachedIsProper(blocks, ex);
    ChainIn(m, head, c, pFrame);
    var r, p := Reached(blocks, ex), Proper(blocks, ex);
    if r < |c| { assert c[r] in c; }
    if r < p < |c| { ChainDistinct(m, head, c, pFrame, r, p); }
  }

  lemma {:induction false} LandingReached(m: Frames, c: seq<Addr>, blocks: seq<Block>, ex: Exc)
    requires Mirrors(m, c, blocks) && forall a :: a in c ==> a in m
    ensures Landing(m, c, ex) == if Reached(blocks, ex) == |c| then 0 else c[Reached(blocks, ex)]
  {
    if c != [] { LandingReached(m, c[1..], blocks[1..], ex); }
  }

  lemma {:induction false} ChainDistinct(m: Frames, head: Addr, c: seq<Addr>, pFrame: seq<nat>, i: nat, j: nat)
    requires FrameChain(m, head, c, pFrame) && i < j < |c|
    ensures c[i] != c[j]
    decreases |c|
  {
    assert c[j] == c[1..][j - 1] && c[j] in c[1..];
    if i > 0 { ChainDistinct(m, m[head].pNext, c[1..], m[head].pFrame, i - 1, j - 1); }
  }

  /** The state after a long jump to this frame. */
  ghost predicate SentTo(m: Frames, n: Frames, head': Addr, pFrame': seq<nat>, t: Addr, ex: Exc, exit: Exit) {
    && t in m && exit == Jump(t, FilterNumber(m[t].filter, ex))
    && n == m[t := m[t].(ex := Some(ex))] && head' == t && pFrame' == m[t].pFrame
  }

  /** The state after code with a known outcome: unchanged, transferred to the proper frame, or transferred to a frame
      that runs its handler already. */
  ghost predicate Left(m: Frames, n: Frames, c: seq<Addr>, head: Addr, head': Addr, pFrame: seq<nat>, pFrame': seq<nat>,
                       blocks: seq<Block>, r: Outcome, exit: Exit)
    requires |c| == |blocks|
  {
    match r
    case Again => exit == Reentered
    case Astray(depth, ex) =>
      IsAstray(blocks, depth, ex) && SentTo(m, n, head', pFrame', c[|c| - 1 - depth], ex, exit)
    case Ended(Done) => exit == Normal && n == m && head' == head && pFrame' == pFrame
    case Ended(Raised(ex)) =>
      var t := ProperLanding(c, blocks, ex);
      if t == 0 then exit == Unhandled(ex) else SentTo(m, n, head', pFrame', t, ex, exit)
  }

  /** IL2C_THREAD_CONTEXT, with the exception frames on the C stack and what the program has done. */
  class ThreadContext {
    var frames: Frames
    var pUnwindTarget: Addr
    var pFrame: seq<nat>
    var events: seq<Event>

    constructor (bottom: nat)
      ensures frames == map[] && pUnwindTarget == 0 && pFrame == [bottom] && events == []
    {
      frames, pUnwindTarget, pFrame, events := map[], 0, [bottom], [];
    }

    /** il2c_link_unwind_target__ for a frame on the C stack. */
    method LinkUnwindTarget(filter: Filter) returns (a: Addr)
      modifies this
      ensures a != 0 && a !in old(frames)
      ensures frames == old(frames)[a := Frame(old(pUnwindTarget), pFrame, None, filter)]
      ensures pUnwindTarget == a && pFrame == old(pFrame) && events == old(events)
    {
      ghost var unused := Above(frames.Keys);
      a :| a != 0 && a !in frames;
      frames := frames[a := Frame(pUnwindTarget, pFrame, None, filter)];
      pUnwindTarget := a;
    }

    /** il2c_unlink_unwind_target__: the frame is always the innermost one; its C scope ends. */
    method UnlinkUnwindTarget(target: Addr)
      requires target == pUnwindTarget && target in frames
      modifies this
      ensures frames == old(frames) - {target} && pUnwindTarget == old(frames)[target].pNext
      ensures pFrame == old(pFrame) && events == old(events)
    {
      var p := pUnwindTarget;
      pUnwindTarget := frames[target].pNext;
      assert p == target;
      frames := frames - {target};
    }

    /** il2c_do_throw__ */
    method DoThrow(ex: Exc, target: Addr, number: int) returns (exit: Exit)
      requires target in frames
      modifies this
      ensures frames == old(frames)[target := old(frames)[target].(ex := Some(ex))]
      ensures pUnwindTarget == target && pFrame == old(frames)[target].pFrame && events == old(events)
      ensures exit == Jump(target, number)
    {
      frames := frames[target := frames[target].(ex := Some(ex))];
      pUnwindTarget := target;
      pFrame := frames[target].pFrame;
      exit := Jump(target, number);
    }

    /** il2c_throw_internal__: the two-phase scan lands on the first frame whose filter does not decline. */
    method ThrowInternal(ex: Exc, first: Addr, ghost c: seq<Addr>) returns (exit: Exit)
      requires FrameChain(frames, first, c, pFrame) && pFrame != []
      modifies this
      ensures events == old(events) && forall a :: a in c ==> a in old(frames)
      ensures
        var t := Landing(old(frames), c, ex);
        if t == 0 then exit == Unhandled(ex) && frames == old(frames)
        else
          && t in c && exit == Jump(t, FilterNumber(old(frames)[t].filter, ex))
          && frames == old(frames)[t := old(frames)[t].(ex := Some(ex))]
          && pUnwindTarget == t && pFrame == old(frames)[t].pFrame
    {
      ChainIn(frames, first, c, pFrame);
      LandingIn(frames, c, ex);
      var current, finallyFrame: Addr := first, 0;
      ghost var i, saved := 0, pFrame;
      while current != 0
        invariant i <= |c| && FrameChain(frames, current, c[i..], saved)
        invariant frames == old(frames) && pUnwindTarget == old(pUnwindTarget) && pFrame == old(pFrame) && events == old(events)
        invariant finallyFrame != 0 ==> finallyFrame == Landing(frames, c, ex) && frames[finallyFrame].filter.Finally?
        invariant finallyFrame == 0 ==> Landing(frames, c, ex) == Landing(frames, c[i..], ex)
        decreases |c| - i
      {
        assert c[i..][1..] == c[i + 1..];
        assert current == c[i] && current in c;
        assert frames[current].pFrame != [];
        var number := FilterNumber(frames[current].filter, ex);
        if number == FILTER_FINALLY {
          CatchNumbers(frames[current].filter, ex);
          if finallyFrame == 0 { finallyFrame := current; }
        } else if number != FILTER_NOMATCH {
          if finallyFrame != 0 {
            exit := DoThrow(ex, finallyFrame, FILTER_FINALLY);
          } else {
            exit := DoThrow(ex, current, number);
          }
          return;
        }
        saved := frames[current].pFrame;
        current := frames[current].pNext;
        i := i + 1;
      }
      if finallyFrame != 0 {
        exit := DoThrow(ex, finallyFrame, FILTER_FINALLY);
        return;
      }
      exit := Unhandled(ex);
    }

    /** il2c_throw__: a handler that is running does not see its own exceptions. */
    method Throw(ex: Exc, ghost c: seq<Addr>, ghost blocks: seq<Block>, ghost caught: Option<Exc>) returns (exit: Exit)
      requires Running(frames, pUnwindTarget, c, pFrame, blocks, caught)
      modifies this
      ensures events == old(events)
      ensures Left(old(frames), frames, c, old(pUnwindTarget), pUnwindTarget, old(pFrame), pFrame, blocks, Sent(Exposed(blocks), ex), exit)
    {
      var first := if pUnwindTarget != 0 then
          if frames[pUnwindTarget].ex.Some? then frames[pUnwindTarget].pNext else pUnwindTarget
        else 0;
      ExposedChain(frames, pUnwindTarget, c, pFrame, blocks, caught);
      SentLeaves(frames, pUnwindTarget, c, pFrame, blocks, caught, ex);
      exit := ThrowInternal(ex, first, ExposedFrames(c, blocks));
    }

    /** il2c_rethrow: pops the running handler, or looks for the nearest handler that runs further out. */
    method Rethrow(ghost c: seq<Addr>, ghost blocks: seq<Block>, ghost caught: Option<Exc>) returns (exit: Exit)
      requires Running(frames, pUnwindTarget, c, pFrame, blocks, caught) && caught.Some?
      modifies this
      ensures events == old(events)
      ensures Left(old(frames), frames, c, old(pUnwindTarget), pUnwindTarget, old(pFrame), pFrame, blocks, Sent(Exposed(blocks), caught.value), exit)
    {
      hide Sent, IsAstray, ProperLanding, Landing, Mirrors, FilterNumber;
      assert c != [];
      ExposedChain(frames, pUnwindTarget, c, pFrame, blocks, caught);
      SentLeaves(frames, pUnwindTarget, c, pFrame, blocks, caught, caught.value);
      if frames[pUnwindTarget].ex.Some? {
        var ex := frames[pUnwindTarget].ex.value;
        pUnwindTarget := frames[pUnwindTarget].pNext;
        exit := ThrowInternal(ex, pUnwindTarget, ExposedFrames(c, blocks));
        return;
      }
      var current := frames[pUnwindTarget].pNext;
      ghost var i, saved := 1, frames[pUnwindTarget].pFrame;
      while current != 0
        invariant 1 <= i <= |c| && FrameChain(frames, current, c[i..], saved)
        invariant frames == old(frames) && pUnwindTarget == old(pUnwindTarget) && pFrame == old(pFrame) && events == old(events)
        invariant Nearest(frames, c[i..]) == caught
        decreases |c| - i
      {
        assert c[i..][1..] == c[i + 1..];
        if frames[current].ex.Some? {
          exit := ThrowInternal(frames[current].ex.value, pUnwindTarget, ExposedFrames(c, blocks));
          return;
        }
        saved := frames[current].pFrame;
        current := frames[current].pNext;
        i := i + 1;
      }
      assert false;
    }

    /** The C scope of a frame that is left by a long jump ends without unlinking. */
    method Abandon(a: Addr)
      modifies this
      ensures frames == old(frames) - {a}
      ensures pUnwindTarget == old(pUnwindTarget) && pFrame == old(pFrame) && events == old(events)
    {
      frames := frames - {a};
    }

    /** What the generated C code does in a run, up to the first time that a running handler is entered again. */
    method Execute(s: Stmt, ghost c: seq<Addr>, ghost blocks: seq<Block>, ghost caught: Option<Exc>) returns (exit: Exit)
      requires Running(frames, pUnwindTarget, c, pFrame, blocks, caught) && WellFormed(s, caught.Some?)
      modifies this
      ensures events == old(events) + Actual(s, blocks, caught).1
      ensures Left(old(frames), frames, c, old(pUnwindTarget), pUnwindTarget, old(pFrame), pFrame, blocks, Actual(s, blocks, caught).0, exit)
      decreases s, 1
    {
      match s {
        case Work(tag) =>
          events := events + [Did(tag)];
          exit := Normal;
        case Seq(first, second) =>
          exit := Execute(first, c, blocks, caught);
          if exit.Normal? {
            exit := Execute(second, c, blocks, caught);
          }
        case Call(body) =>
          var frame := |pFrame|;
          CallRuns(frames, pUnwindTarget, c, pFrame, blocks, caught, frame);
          pFrame := [frame] + pFrame;
          exit := Execute(body, c, blocks, None);
          if exit.Normal? {
            assert pFrame[0] == frame;
            pFrame := pFrame[1..];
          }
        case Throw(ex) => exit := Throw(ex, c, blocks, caught);
        case Rethrow => exit := Rethrow(c, blocks, caught);
        case TryCatch(body, types, handlers) => exit := ExecuteTryCatch(s, c, blocks, caught);
        case TryFinally(body, handler) => exit := ExecuteTryFinally(s, c, blocks, caught);
      }
    }

    /** il2c_try, il2c_catch, il2c_leave, il2c_leave_to and il2c_end_try. */
    method ExecuteTryCatch(s: Stmt, ghost c: seq<Addr>, ghost blocks: seq<Block>, ghost caught: Option<Exc>) returns (exit: Exit)
      requires Running(frames, pUnwindTarget, c, pFrame, blocks, caught) && WellFormed(s, caught.Some?) && s.TryCatch?
      modifies this
      ensures events == old(events) + Actual(s, blocks, caught).1
      ensures Left(old(frames), frames, c, old(pUnwindTarget), pUnwindTarget, old(pFrame), pFrame, blocks, Actual(s, blocks, caught).0, exit)
      decreases s, 0
    {
      hide Running, FilterNumber, Left, Actual;
      ghost var m, head, p := frames, pUnwindTarget, pFrame;
      ghost var filter := Catches(s.types);
      ghost var (r, e) := Actual(s.body, [Block(filter, Body)] + blocks, caught);
      var a := LinkUnwindTarget(Catches(s.types));
      LinkedFrame(m, head, c, p, blocks, caught, a, filter);
      exit := Execute(s.body, [a] + c, [Block(filter, Body)] + blocks, caught);
      BodyLeft(m, frames, head, pUnwindTarget, c, p, pFrame, blocks, caught, a, filter, r, exit);
      if exit.Jump? && exit.target == a {
        ClauseNumber(s.types, r.ending.ex);
        var ex := frames[a].ex.value;
        events := events + [EnteredCatch(exit.number, ex)];
        ghost var block := Block(filter, Handling);
        ghost var (q, f) := Actual(s.handlers[exit.number - 1], [block] + blocks, Some(ex));
        HandledActual(s, blocks, caught, exit.number);
        exit := Execute(s.handlers[exit.number - 1], [a] + c, [block] + blocks, Some(ex));
        HandlerLeft(m, frames, head, pUnwindTarget, c, p, pFrame, blocks, caught, a, block, Some(ex), q, exit);
        if exit.Jump? && exit.target == a {
          events := events + [EnteredCatch(exit.number, frames[a].ex.value)];
          exit := Reentered;
          LeftAgain(m, frames - {a}, c, head, pUnwindTarget, p, pFrame, blocks, exit);
        }
      } else {
        UnhandledActual(s, blocks, caught);
      }
      if exit.Normal? {
        UnlinkUnwindTarget(a);
        LeftDone(m, frames, c, head, pUnwindTarget, p, pFrame, blocks, exit);
      } else {
        Abandon(a);
      }
    }

    /** il2c_try, il2c_finally, il2c_endfinally, il2c_leave_to and il2c_end_try. */
    method ExecuteTryFinally(s: Stmt, ghost c: seq<Addr>, ghost blocks: seq<Block>, ghost caught: Option<Exc>) returns (exit: Exit)
      requires Running(frames, pUnwindTarget, c, pFrame, blocks, caught) && WellFormed(s, caught.Some?) && s.TryFinally?
      modifies this
      ensures events == old(events) + Actual(s, blocks, caught).1
      ensures Left(old(frames), frames, c, old(pUnwindTarget), pUnwindTarget, old(pFrame), pFrame, blocks, Actual(s, blocks, caught).0, exit)
      decreases s, 0
    {
      hide Running, Left, Actual, Sent;
      ghost var m, head, p := frames, pUnwindTarget, pFrame;
      ghost var r := Actual(s.body, [Block(Finally, Body)] + blocks, caught).0;
      var a := LinkUnwindTarget(Finally);
      LinkedFrame(m, head, c, p, blocks, caught, a, Finally);
      exit := Execute(s.body, [a] + c, [Block(Finally, Body)] + blocks, caught);
      BodyLeft(m, frames, head, pUnwindTarget, c, p, pFrame, blocks, caught, a, Finally, r, exit);
      FinallyActual(s, blocks, caught);
      if exit.Reentered? {
        Abandon(a);
        return;
      }
      assert exit.Normal? || exit == Jump(a, FILTER_FINALLY);
      events := events + [EnteredFinally];
      ghost var pending := frames[a].ex;
      ghost var block := Block(Finally, if pending.Some? then Handling else Finishing);
      ghost var q := Actual(s.handler, [block] + blocks, None).0;
      exit := Execute(s.handler, [a] + c, [block] + blocks, None);
      HandlerLeft(m, frames, head, pUnwindTarget, c, p, pFrame, blocks, caught, a, block, pending, q, exit);
      if exit.Normal? {
        if frames[a].ex.Some? {
          exit := Rethrow([a] + c, [block] + blocks, pending);
          assert Exposed([block] + blocks) == blocks;
          SentInside(blocks, pending.value);
          HandlerLeft(m, frames, head, pUnwindTarget, c, p, pFrame, blocks, caught, a, block, pending, Sent(blocks, pending.value), exit);
          Abandon(a);
        } else {
          UnlinkUnwindTarget(a);
          LeftDone(m, frames, c, head, pUnwindTarget, p, pFrame, blocks, exit);
        }
      } else {
        if exit.Jump? && exit.target == a {
          events := events + [EnteredFinally];
          exit := Reentered;
          LeftAgain(m, frames - {a}, c, head, pUnwindTarget, p, pFrame, blocks, exit);
        }
        Abandon(a);
      }
    }

    /** A whole program has the events and the end of its meaning exactly if it is safe; otherwise the code enters a
        handler that is running already, and has done what the meaning says up to then. */
    method RunProgram(s: Stmt) returns (exit: Exit)
      requires frames == map[] && pUnwindTarget == 0 && |pFrame| == 1 && events == []
      requires WellFormed(s, false)
      modifies this
      ensures IsSafe(s, [], None) <==> !exit.Reentered?
      ensures IsSafe(s, [], None) ==>
                && events == Eval(s, None).1
                && exit == match Eval(s, None).0 case Done => Normal case Raised(ex) => Unhandled(ex)
      ensures IsSafe(s, [], None) && Eval(s, None).0.Done? ==> frames == map[] && pUnwindTarget == 0 && pFrame == old(pFrame)
      ensures !IsSafe(s, [], None) ==> events != [] && events[..|events| - 1] <= Eval(s, None).1
    {
      ActualIsMeaning(s, [], None);
      exit := Execute(s, [], [], None);
    }
  }

  lemma {:induction false} UnhandledActual(s: Stmt, blocks: seq<Block>, caught: Option<Exc>)
    requires s.TryCatch?
    ensures
      var (r, e) := Actual(s.body, [Block(Catches(s.types), Body)] + blocks, caught);
      r == Ended(Done) || !r.Ended? || FilterNumber(Catches(s.types), r.ending.ex) == FILTER_NOMATCH ==> Actual(s, blocks, caught) == (r, e)
  {
  }

  lemma {:induction false} HandledActual(s: Stmt, blocks: seq<Block>, caught: Option<Exc>, n: nat)
    requires s.TryCatch? && 0 < n <= |s.handlers|
    requires
      var r := Actual(s.body, [Block(Catches(s.types), Body)] + blocks, caught).0;
      r.Ended? && r.ending.Raised? && n == FilterNumber(Catches(s.types), r.ending.ex)
    ensures
      var filter := Catches(s.types);
      var (r, e) := Actual(s.body, [Block(filter, Body)] + blocks, caught);
      var (q, f) := Actual(s.handlers[n - 1], [Block(filter, Handling)] + blocks, Some(r.ending.ex));
      var done := e + [EnteredCatch(n, r.ending.ex)] + f;
      Actual(s, blocks, caught) ==
      if q.Astray? && q.depth == |blocks| then (Again, done + [EnteredCatch(FilterNumber(filter, q.ex), q.ex)]) else (q, done)
  {
  }

  lemma {:induction false} FinallyActual(s: Stmt, blocks: seq<Block>, caught: Option<Exc>)
    requires s.TryFinally?
    ensures
      var (r, e) := Actual(s.body, [Block(Finally, Body)] + blocks, caught);
      if !r.Ended? then Actual(s, blocks, caught) == (r, e) else
      var (q, f) := Actual(s.handler, [Block(Finally, if r.ending.Raised? then Handling else Finishing)] + blocks, None);
      var done := e + [EnteredFinally] + f;
      Actual(s, blocks, caught) ==
      if q.Astray? && q.depth == |blocks| then (Again, done + [EnteredFinally])
      else if q == Ended(Done) && r.ending.Raised? then (Sent(blocks, r.ending.ex), done)
      else (q, done)
  {
  }

  lemma SentInside(blocks: seq<Block>, ex: Exc)
    ensures Sent(blocks, ex) != Ended(Done) && (Sent(blocks, ex).Astray? ==> Sent(blocks, ex).depth < |blocks|)
  {
  }

  lemma CallRuns(m: Frames, head: Addr, c: seq<Addr>, pFrame: seq<nat>, blocks: seq<Block>, caught: Option<Exc>, frame: nat)
    requires Running(m, head, c, pFrame, blocks, caught)
    ensures Running(m, head, c, [frame] + pFrame, blocks, None)
  {
    ChainWider(m, head, c, pFrame, [frame] + pFrame);
  }

  lemma {:induction false} NearestFrame(m: Frames, n: Frames, c: seq<Addr>)
    requires forall a :: a in c ==> a in m && a in n && n[a].ex == m[a].ex
    ensures Nearest(m, c) == Nearest(n, c)
  {
    if c != [] { NearestFrame(m, n, c[1..]); }
  }

  /** A frame in front, whatever it is doing: its code runs inside one more block. */
  lemma FrontFrame(m: Frames, head: Addr, c: seq<Addr>, pFrame: seq<nat>, blocks: seq<Block>, caught: Option<Exc>, a: Addr, b: Block, ex: Option<Exc>)
    requires Running(m, head, c, pFrame, blocks, caught) && a != 0 && a !in m && (ex.Some? <==> b.phase.Handling?)
    ensures
      var n := m[a := Frame(head, pFrame, ex, b.filter)];
      && Running(n, a, [a] + c, pFrame, [b] + blocks, if ex.Some? then ex else caught)
      && Running(n, a, [a] + c, pFrame, [b] + blocks, None)
      && n - {a} == m && a !in c
  {
    var n, k := m[a := Frame(head, pFrame, ex, b.filter)], [a] + c;
    assert k[1..] == c && a !in c;
    ChainFrame(m, n, head, c, pFrame);
    NearestFrame(m, n, c);
    assert pFrame[|pFrame| - |pFrame|..] == pFrame;
    assert FrameChain(n, a, k, pFrame);
  }

  lemma LinkedFrame(m: Frames, head: Addr, c: seq<Addr>, pFrame: seq<nat>, blocks: seq<Block>, caught: Option<Exc>, a: Addr, f: Filter)
    requires Running(m, head, c, pFrame, blocks, caught) && a != 0 && a !in m
    ensures Running(m[a := Frame(head, pFrame, None, f)], a, [a] + c, pFrame, [Block(f, Body)] + blocks, caught)
    ensures |c| == |blocks|
  {
    FrontFrame(m, head, c, pFrame, blocks, caught, a, Block(f, Body), None);
  }

  /** Code inside a block that is left past the block: nothing but the block's own frame goes away. */
  lemma LeftPast(m: Frames, n: Frames, head: Addr, head': Addr, c: seq<Addr>, p: seq<nat>, p': seq<nat>, blocks: seq<Block>,
                 a: Addr, b: Block, ex: Option<Exc>, r: Outcome, exit: Exit)
    requires |c| == |blocks| && a !in m && a !in c && a != 0
    requires Left(m[a := Frame(head, p, ex, b.filter)], n, [a] + c, a, head', p, p', [b] + blocks, r, exit)
    requires r != Ended(Done) && !(r.Astray? && r.depth == |blocks|)
    requires r.Ended? ==> !(b.phase.Body? && Accepts(b, r.ending.ex))
    ensures !exit.Normal? && !(exit.Jump? && exit.target == a)
    ensures Left(m, n - {a}, c, head, head', p, p', blocks, r, exit)
  {
    hide FilterNumber;
    match r {
      case Again =>
      case Astray(depth, ex) =>
        AstrayOutward(b, blocks, depth, ex);
        assert ([a] + c)[|c| - depth] == c[|c| - 1 - depth];
      case Ended(ending) => OuterLanding(c, blocks, a, b, ending.ex);
    }
  }

  /** How a block's body can be left: normally, into the block's own handler, or past the block. */
  lemma BodyLeft(m: Frames, n: Frames, head: Addr, head': Addr, c: seq<Addr>, p: seq<nat>, p': seq<nat>, blocks: seq<Block>,
                 caught: Option<Exc>, a: Addr, f: Filter, r: Outcome, exit: Exit)
    requires Running(m, head, c, p, blocks, caught) && a != 0 && a !in m && |c| == |blocks|
    requires Left(m[a := Frame(head, p, None, f)], n, [a] + c, a, head', p, p', [Block(f, Body)] + blocks, r, exit)
    ensures r == Ended(Done) ==>
              && exit.Normal? && n == m[a := Frame(head, p, None, f)] && head' == a && p' == p && n - {a} == m
              && Running(n, a, [a] + c, p, [Block(f, Finishing)] + blocks, None)
    ensures r.Ended? && r.ending.Raised? && FilterNumber(f, r.ending.ex) != FILTER_NOMATCH ==>
              && exit == Jump(a, FilterNumber(f, r.ending.ex)) && n == m[a := Frame(head, p, Some(r.ending.ex), f)] && head' == a && p' == p
              && Running(n, a, [a] + c, p, [Block(f, Handling)] + blocks, Some(r.ending.ex))
              && Running(n, a, [a] + c, p, [Block(f, Handling)] + blocks, None)
    ensures !r.Ended? || (r.ending.Raised? && FilterNumber(f, r.ending.ex) == FILTER_NOMATCH) ==>
              && !exit.Normal? && !(exit.Jump? && exit.target == a)
              && Left(m, n - {a}, c, head, head', p, p', blocks, r, exit)
    ensures r.Astray? ==> f.Catches?
    ensures r.Again? ==> exit.Reentered?
  {
    hide FrameChain, FilterNumber, Running, Left;
    var b := Block(f, Body);
    FrontFrame(m, head, c, p, blocks, caught, a, b, None);
    match r {
      case Again =>
        LeftPast(m, n, head, head', c, p, p', blocks, a, b, None, r, exit);
        LeftAgain(m[a := Frame(head, p, None, f)], n, [a] + c, a, head', p, p', [b] + blocks, exit);
      case Astray(depth, ex) =>
        assert IsAstray([b] + blocks, depth, ex) by { LeftAstray(m[a := Frame(head, p, None, f)], n, [a] + c, a, head', p, p', [b] + blocks, r, exit); }
        AstrayOutward(b, blocks, depth, ex);
        LeftPast(m, n, head, head', c, p, p', blocks, a, b, None, r, exit);
      case Ended(Done) =>
        LeftDone(m[a := Frame(head, p, None, f)], n, [a] + c, a, head', p, p', [b] + blocks, exit);
        FrontFrame(m, head, c, p, blocks, caught, a, Block(f, Finishing), None);
      case Ended(Raised(ex)) =>
        if FilterNumber(f, ex) == FILTER_NOMATCH {
          LeftPast(m, n, head, head', c, p, p', blocks, a, b, None, r, exit);
        } else {
          FrontFrame(m, head, c, p, blocks, caught, a, Block(f, Handling), Some(ex));
          LeftOwn(m, n, head, head', c, p, p', blocks, a, b, None, ex, exit);
        }
    }
  }

  lemma LeftDone(m: Frames, n: Frames, c: seq<Addr>, head: Addr, head': Addr, p: seq<nat>, p': seq<nat>, blocks: seq<Block>, exit: Exit)
    requires |c| == |blocks|
    ensures Left(m, n, c, head, head', p, p', blocks, Ended(Done), exit) <==> exit == Normal && n == m && head' == head && p' == p
  {
  }

  lemma LeftAgain(m: Frames, n: Frames, c: seq<Addr>, head: Addr, head': Addr, p: seq<nat>, p': seq<nat>, blocks: seq<Block>, exit: Exit)
    requires |c| == |blocks|
    ensures Left(m, n, c, head, head', p, p', blocks, Again, exit) <==> exit.Reentered?
  {
  }

  lemma LeftAstray(m: Frames, n: Frames, c: seq<Addr>, head: Addr, head': Addr, p: seq<nat>, p': seq<nat>, blocks: seq<Block>, r: Outcome, exit: Exit)
    requires |c| == |blocks| && Left(m, n, c, head, head', p, p', blocks, r, exit) && r.Astray?
    ensures IsAstray(blocks, r.depth, r.ex) && SentTo(m, n, head', p', c[|c| - 1 - r.depth], r.ex, exit)
  {
  }

  /** An exception that the block itself receives. */
  lemma LeftOwn(m: Frames, n: Frames, head: Addr, head': Addr, c: seq<Addr>, p: seq<nat>, p': seq<nat>, blocks: seq<Block>,
                a: Addr, b: Block, before: Option<Exc>, ex: Exc, exit: Exit)
    requires |c| == |blocks| && a !in m && a !in c && a != 0 && b.phase.Body? && Accepts(b, ex)
    requires Left(m[a := Frame(head, p, before, b.filter)], n, [a] + c, a, head', p, p', [b] + blocks, Ended(Raised(ex)), exit)
    ensures exit == Jump(a, FilterNumber(b.filter, ex)) && n == m[a := Frame(head, p, Some(ex), b.filter)] && head' == a && p' == p
  {
    hide FilterNumber;
    OuterLanding(c, blocks, a, b, ex);
  }

  /** How a handler can be left: normally, into its own frame again, or past its block. */
  lemma HandlerLeft(m: Frames, n: Frames, head: Addr, head': Addr, c: seq<Addr>, p: seq<nat>, p': seq<nat>, blocks: seq<Block>,
                    caught: Option<Exc>, a: Addr, b: Block, ex: Option<Exc>, r: Outcome, exit: Exit)
    requires Running(m, head, c, p, blocks, caught) && a != 0 && a !in m && |c| == |blocks|
    requires !b.phase.Body? && (ex.Some? <==> b.phase.Handling?)
    requires Left(m[a := Frame(head, p, ex, b.filter)], n, [a] + c, a, head', p, p', [b] + blocks, r, exit)
    ensures r == Ended(Done) ==>
              && exit.Normal? && n == m[a := Frame(head, p, ex, b.filter)] && head' == a && p' == p && n - {a} == m
              && Running(n, a, [a] + c, p, [b] + blocks, if ex.Some? then ex else caught)
    ensures r.Astray? && r.depth == |blocks| ==>
              exit == Jump(a, FilterNumber(b.filter, r.ex)) && a in n && n[a].ex == Some(r.ex)
    ensures r != Ended(Done) && !(r.Astray? && r.depth == |blocks|) ==>
              && !exit.Normal? && !(exit.Jump? && exit.target == a)
              && Left(m, n - {a}, c, head, head', p, p', blocks, r, exit)
  {
    hide FrameChain, FilterNumber, Running, Left;
    FrontFrame(m, head, c, p, blocks, caught, a, b, ex);
    var inner := m[a := Frame(head, p, ex, b.filter)];
    if r == Ended(Done) {
      LeftDone(inner, n, [a] + c, a, head', p, p', [b] + blocks, exit);
    } else if r.Astray? && r.depth == |blocks| {
      LeftAstray(inner, n, [a] + c, a, head', p, p', [b] + blocks, r, exit);
    } else {
      LeftPast(m, n, head, head', c, p, p', blocks, a, b, ex, r, exit);
    }
  }

  lemma OuterLanding(c: seq<Addr>, blocks: seq<Block>, a: Addr, b: Block, ex: Exc)
    requires |c| == |blocks| && a !in c
    ensures ProperLanding([a] + c, [b] + blocks, ex) ==
            if b.phase.Body? && Accepts(b, ex) then a else ProperLanding(c, blocks, ex)
    ensures ProperLanding(c, blocks, ex) == 0 || ProperLanding(c, blocks, ex) in c
  {
    assert ([b] + blocks)[1..] == blocks;
    var n := Proper(blocks, ex);
    if n < |c| { assert ([a] + c)[n + 1] == c[n]; }
  }

  ghost function ExposedFrames(c: seq<Addr>, blocks: seq<Block>): seq<Addr> {
    if c != [] && blocks != [] && blocks[0].phase.Handling? then c[1..] else c
  }

  /** The skipped frame, if any, is the innermost one, and the rest is a chain of its own. */
  lemma {:induction false} ExposedChain(m: Frames, head: Addr, c: seq<Addr>, pFrame: seq<nat>, blocks: seq<Block>, caught: Option<Exc>)
    requires Running(m, head, c, pFrame, blocks, caught)
    ensures (head == 0) == (c == [])
    ensures head != 0 ==> head in m && (m[head].ex.Some? <==> blocks[0].phase.Handling?)
    ensures FrameChain(m, if head != 0 && m[head].ex.Some? then m[head].pNext else head, ExposedFrames(c, blocks), pFrame)
  {
    if head != 0 && m[head].ex.Some? {
      ChainWider(m, m[head].pNext, c[1..], m[head].pFrame, pFrame);
    }
  }

  /** What the scan over the exposed frames comes to. */
  lemma {:induction false} SentLeaves(m: Frames, head: Addr, c: seq<Addr>, pFrame: seq<nat>, blocks: seq<Block>, caught: Option<Exc>, ex: Exc)
    requires Running(m, head, c, pFrame, blocks, caught)
    ensures forall a :: a in ExposedFrames(c, blocks) ==> a in m
    ensures
      var t, r := Landing(m, ExposedFrames(c, blocks), ex), Sent(Exposed(blocks), ex);
      && (r.Ended? ==> r == Ended(Raised(ex)) && t == ProperLanding(c, blocks, ex))
      && (r.Astray? ==> r.ex == ex && IsAstray(blocks, r.depth, ex) && t == c[|c| - 1 - r.depth] && t != 0)
      && !r.Again?
  {
    hide Running, FrameChain, FilterNumber, IsClear, Landing, Mirrors, Reached, Proper;
    var d, x := ExposedFrames(c, blocks), Exposed(blocks);
    RunningFrames(m, head, c, pFrame, blocks, caught);
    LandingReached(m, d, x, ex);
    SentMeaning(blocks, ex);
    ExposedProper(blocks, ex);
  }

  lemma RunningFrames(m: Frames, head: Addr, c: seq<Addr>, pFrame: seq<nat>, blocks: seq<Block>, caught: Option<Exc>)
    requires Running(m, head, c, pFrame, blocks, caught)
    ensures |c| == |blocks| && (forall i :: 0 <= i < |c| ==> c[i] != 0) && (forall a :: a in ExposedFrames(c, blocks) ==> a in m)
    ensures Mirrors(m, ExposedFrames(c, blocks), Exposed(blocks))
  {
    ChainIn(m, head, c, pFrame);
    forall i | 0 <= i < |c| ensures c[i] != 0 { assert c[i] in c; }
  }

  lemma {:induction false} ExposedProper(blocks: seq<Block>, ex: Exc)
    ensures var x := Exposed(blocks); x == blocks || (x == blocks[1..] && Proper(blocks, ex) == 1 + Proper(x, ex))
  {
  }

  lemma {:induction false} ChainWider(m: Frames, head: Addr, c: seq<Addr>, small: seq<nat>, large: seq<nat>)
    requires FrameChain(m, head, c, small) && IsSuffix(small, large)
    ensures FrameChain(m, head, c, large)
  {
    if c != [] { SuffixTransitive(m[head].pFrame, small, large); }
  }

  lemma ClauseNumber(types: seq<string>, ex: Exc)
    ensures 0 <= FilterNumber(Catches(types), ex) <= |types|
  {
  }

  lemma CatchNumbers(f: Filter, ex: Exc)
    ensures FilterNumber(f, ex) == FILTER_FINALLY <==> f.Finally?
  {
  }
}
