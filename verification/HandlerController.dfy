/** The incremental exception handler controller against a plain filter over the handler table
    (IL2C.Core/Writers/ExceptionHandlerController.cs, IL2C.Core/Metadata/CodeInformation.cs). */
module HandlerController {
  import opened Wrappers
  import opened Ascending

  datatype CatchHandler = CatchHandler(catchStart: int, catchEnd: int)

  datatype Handler = Handler(tryStart: int, tryEnd: int, catchHandlers: seq<CatchHandler>) {
    predicate ContainsOffset(o: int) {
      tryStart <= o < tryEnd || exists c :: c in catchHandlers && c.catchStart <= o < c.catchEnd
    }
  }

  /** Block 0 is the try block, block k + 1 the k-th handler block. */
  function Blocks(h: Handler): nat { |h.catchHandlers| + 1 }

  function BlockStart(h: Handler, k: nat): int
    requires k < Blocks(h)
  {
    if k == 0 then h.tryStart else h.catchHandlers[k - 1].catchStart
  }

  function BlockEnd(h: Handler, k: nat): int
    requires k < Blocks(h)
  {
    if k == 0 then h.tryEnd else h.catchHandlers[k - 1].catchEnd
  }

  function End(h: Handler): int { BlockEnd(h, Blocks(h) - 1) }

  /** At least one handler block; the blocks are not empty and follow one another without gaps. */
  ghost predicate IsContiguous(h: Handler) {
    && Blocks(h) >= 2
    && (forall k :: 0 <= k < Blocks(h) ==> BlockStart(h, k) < BlockEnd(h, k))
    && (forall k :: 0 < k < Blocks(h) ==> BlockStart(h, k) == BlockEnd(h, k - 1))
  }

  lemma {:induction false} BlocksOrdered(h: Handler, a: nat, b: nat)
    requires IsContiguous(h) && a <= b < Blocks(h)
    ensures BlockEnd(h, a) <= BlockEnd(h, b) && BlockStart(h, a) <= BlockStart(h, b)
    ensures a < b ==> BlockEnd(h, a) <= BlockStart(h, b)
  {
    if a < b {
      BlocksOrdered(h, a, b - 1);
      assert BlockStart(h, b) == BlockEnd(h, b - 1);
    }
  }

  /** A contiguous handler covers exactly the offsets from its try start to its last block's end. */
  lemma ContainsIsRange(h: Handler, o: int)
    requires IsContiguous(h)
    ensures h.ContainsOffset(o) <==> h.tryStart <= o < End(h)
  {
    hide IsContiguous;
    if h.tryStart <= o < End(h) {
      var k := BlockAt(h, o);
      if k > 0 { assert h.catchHandlers[k - 1] in h.catchHandlers; }
    }
    if h.ContainsOffset(o) {
      var k := ContainingBlock(h, o);
      BlocksOrdered(h, 0, k);
      BlocksOrdered(h, k, Blocks(h) - 1);
    }
  }

  lemma ContainingBlock(h: Handler, o: int) returns (k: nat)
    requires h.ContainsOffset(o)
    ensures k < Blocks(h) && BlockStart(h, k) <= o < BlockEnd(h, k)
  {
    if h.tryStart <= o < h.tryEnd { return 0; }
    var c :| c in h.catchHandlers && c.catchStart <= o < c.catchEnd;
    var i :| 0 <= i < |h.catchHandlers| && h.catchHandlers[i] == c;
    k := i + 1;
  }

  lemma BlockAt(h: Handler, o: int) returns (k: nat)
    requires IsContiguous(h) && h.tryStart <= o < End(h)
    ensures k < Blocks(h) && BlockStart(h, k) <= o < BlockEnd(h, k)
  {
    k := 0;
    while o >= BlockEnd(h, k)
      invariant k < Blocks(h) && BlockStart(h, k) <= o
      decreases Blocks(h) - k
    {
      assert k < Blocks(h) - 1;
      assert BlockStart(h, k + 1) == BlockEnd(h, k);
      k := k + 1;
    }
  }

  predicate IsBlockEnd(h: Handler, o: int) {
    exists k :: 0 <= k < Blocks(h) && BlockEnd(h, k) == o
  }

  /** Either the second handler starts after the first one, or it lies within one of its blocks. */
  ghost predicate IsNested(outer: Handler, inner: Handler) {
    || End(outer) <= inner.tryStart
    || exists k :: 0 <= k < Blocks(outer) && BlockStart(outer, k) <= inner.tryStart && End(inner) <= BlockEnd(outer, k)
  }

  /** A handler table as the metadata reader sorts it. */
  ghost predicate IsTable(handlers: seq<Handler>) {
    && (forall i :: 0 <= i < |handlers| ==> IsContiguous(handlers[i]))
    && (forall i, j :: 0 <= i < j < |handlers| ==>
          handlers[i].tryStart <= handlers[j].tryStart && IsNested(handlers[i], handlers[j]))
  }

  /** Code is visited at o right after prev: no try starts and no block ends in between. */
  ghost predicate IsNextOffset(handlers: seq<Handler>, prev: int, o: int) {
    && prev < o
    && forall i :: 0 <= i < |handlers| ==>
         && (handlers[i].tryStart <= prev || handlers[i].tryStart >= o)
         && forall k :: 0 <= k < Blocks(handlers[i]) ==> BlockEnd(handlers[i], k) <= prev || BlockEnd(handlers[i], k) >= o
  }

  /** A try starts where a block of another handler ends. */
  ghost predicate Clashes(handlers: seq<Handler>, o: int) {
    exists i, j :: 0 <= i < |handlers| && 0 <= j < |handlers| && handlers[j].tryStart == o && IsBlockEnd(handlers[i], o)
  }

  datatype Event =
    | TryStart(handler: nat, nested: nat)
    | TryEnd(handler: nat, nested: nat)
    | CatchStart(handler: nat, nested: nat, index: nat)
    | CatchEnd(handler: nat, nested: nat, index: nat)
    | Finished(handler: nat, nested: nat, parent: int)

  // ---------------------------------------------------------------------------------------------

  class HandlerState {
    const handler: Handler
    const handlerIndex: nat
    const nestedIndex: nat
    var catchHandlerIndex: int
    var inBlock: bool

    constructor (handler: Handler, handlerIndex: nat, nestedIndex: nat)
      ensures this.handler == handler && this.handlerIndex == handlerIndex && this.nestedIndex == nestedIndex
      ensures catchHandlerIndex == -1 && !inBlock
    {
      this.handler, this.handlerIndex, this.nestedIndex := handler, handlerIndex, nestedIndex;
      catchHandlerIndex, inBlock := -1, false;
    }

    /** The state names the block that holds the offset. */
    predicate IsAt(o: int)
      reads this
    {
      IsUpTo(o) && o < BlockEnd(handler, catchHandlerIndex + 1)
    }

    /** The offset lies in the named block or just behind it. */
    predicate IsUpTo(o: int)
      reads this
    {
      && -1 <= catchHandlerIndex < |handler.catchHandlers| && (inBlock <==> catchHandlerIndex >= 0)
      && BlockStart(handler, catchHandlerIndex + 1) <= o <= BlockEnd(handler, catchHandlerIndex + 1)
    }

    /** Moves on over the block that ends here and into the next one; true when the last one has ended. */
    method Update(o: int) returns (finish: bool, events: seq<Event>)
      requires IsContiguous(handler) && IsUpTo(o)
      modifies this
      ensures finish <==> End(handler) == o
      ensures !finish ==> IsAt(o)
      ensures events == Crossed(handler, handlerIndex, nestedIndex, old(catchHandlerIndex) + 1, o)
      ensures !finish ==> catchHandlerIndex + 1 == old(catchHandlerIndex) + (if events == [] then 1 else 2)
      ensures finish ==> old(catchHandlerIndex) + 1 == Blocks(handler) - 1
    {
      hide IsContiguous;
      ghost var block := catchHandlerIndex + 1;
      Around(handler, block, o);
      events := [];
      while true
        invariant events == [] ==> catchHandlerIndex + 1 == block && inBlock == old(inBlock)
        invariant events != [] ==> BlockEnd(handler, block) == o && catchHandlerIndex == block && !inBlock
        invariant events == [] || events == [if block == 0 then TryEnd(handlerIndex, nestedIndex) else CatchEnd(handlerIndex, nestedIndex, block - 1)]
        decreases events == []
      {
        if catchHandlerIndex == -1 {
          if handler.tryEnd == o {
            events := events + [TryEnd(handlerIndex, nestedIndex)];
            catchHandlerIndex := 0;
            continue;
          }
          return false, events;
        }
        if catchHandlerIndex < |handler.catchHandlers| {
          var catchHandler := handler.catchHandlers[catchHandlerIndex];
          if !inBlock {
            if catchHandler.catchStart == o {
              events := events + [CatchStart(handlerIndex, nestedIndex, catchHandlerIndex)];
              inBlock := true;
            }
            return false, events;
          } else {
            if catchHandler.catchEnd == o {
              events := events + [CatchEnd(handlerIndex, nestedIndex, catchHandlerIndex)];
              inBlock := false;
              catchHandlerIndex := catchHandlerIndex + 1;
              continue;
            }
            return false, events;
          }
        }
        return true, events;
      }
    }

    /** Ends the last block when the code ends without passing its end offset. */
    method TryFinish() returns (finish: bool, events: seq<Event>)
      requires IsContiguous(handler) && -1 <= catchHandlerIndex < |handler.catchHandlers| && (inBlock <==> catchHandlerIndex >= 0)
      modifies this
      ensures finish <==> old(catchHandlerIndex) + 1 == Blocks(handler) - 1
      ensures finish ==> events == Crossed(handler, handlerIndex, nestedIndex, old(catchHandlerIndex) + 1, End(handler))
      ensures !finish ==> events == [] && catchHandlerIndex == old(catchHandlerIndex) && inBlock == old(inBlock)
    {
      if catchHandlerIndex >= |handler.catchHandlers| - 1 && inBlock {
        events := [CatchEnd(handlerIndex, nestedIndex, catchHandlerIndex)];
        inBlock := false;
        catchHandlerIndex := catchHandlerIndex + 1;
        return true, events;
      }
      return false, [];
    }
  }

  /** Where the offset lies once it is not behind a block. */
  lemma Around(h: Handler, block: nat, o: int)
    requires IsContiguous(h) && block < Blocks(h) && BlockStart(h, block) <= o <= BlockEnd(h, block)
    ensures o == End(h) ==> block == Blocks(h) - 1
    ensures o == BlockEnd(h, block) && block < Blocks(h) - 1 ==> BlockStart(h, block + 1) == o < BlockEnd(h, block + 1) && o != End(h)
    ensures Blocks(h) >= 2
  {
    hide IsContiguous;
    BlocksOrdered(h, block, Blocks(h) - 1);
    HasHandlers(h);
    if block < Blocks(h) - 1 {
      BlocksOrdered(h, block + 1, Blocks(h) - 1);
      NextBlock(h, block);
    }
  }

  lemma HasHandlers(h: Handler)
    requires IsContiguous(h)
    ensures Blocks(h) >= 2
  {
  }

  lemma NextBlock(h: Handler, k: nat)
    requires IsContiguous(h) && k + 1 < Blocks(h)
    ensures BlockStart(h, k + 1) == BlockEnd(h, k) < BlockEnd(h, k + 1)
  {
  }

  /** The callbacks for crossing from a block into what follows it. */
  function Crossed(h: Handler, handler: nat, nested: nat, block: nat, o: int): seq<Event>
    requires block < Blocks(h)
  {
    if BlockEnd(h, block) != o then [] else
    [if block == 0 then TryEnd(handler, nested) else CatchEnd(handler, nested, block - 1)] +
    (if block < |h.catchHandlers| then [CatchStart(handler, nested, block)] else [])
  }

  // ---------------------------------------------------------------------------------------------
  // Bracketing of the callbacks

  datatype Open = InBlock(handler: nat, block: nat) | Between(handler: nat, next: nat)

  /** Reads one callback: every start needs its parent open, every end needs its own start on top. */
  function Read(handlers: seq<Handler>, open: seq<Open>, e: Event): Option<seq<Open>> {
    var n := |open|;
    match e
    case TryStart(h, nested) => if nested == n then Some(open + [InBlock(h, 0)]) else None
    case TryEnd(h, nested) =>
      if n > 0 && nested == n - 1 && open[n - 1] == InBlock(h, 0) then Some(open[..n - 1] + [Between(h, 0)]) else None
    case CatchStart(h, nested, k) =>
      if n > 0 && nested == n - 1 && open[n - 1] == Between(h, k) then Some(open[..n - 1] + [InBlock(h, k + 1)]) else None
    case CatchEnd(h, nested, k) =>
      if n > 0 && nested == n - 1 && open[n - 1] == InBlock(h, k + 1) then Some(open[..n - 1] + [Between(h, k + 1)]) else None
    case Finished(h, nested, parent) =>
      if n > 0 && nested == n - 1 && h < |handlers| && open[n - 1] == Between(h, |handlers[h].catchHandlers|)
         && parent == (if n > 1 then open[n - 2].handler else -1)
      then Some(open[..n - 1]) else None
  }

  /** The blocks still open after a word of callbacks; None if the word is not bracketed. */
  function ReadAll(handlers: seq<Handler>, events: seq<Event>): Option<seq<Open>> {
    if events == [] then Some([]) else
    match ReadAll(handlers, events[..|events| - 1])
    case None => None
    case Some(open) => Read(handlers, open, events[|events| - 1])
  }

  lemma {:induction false} ReadSnoc(handlers: seq<Handler>, events: seq<Event>, e: Event)
    ensures ReadAll(handlers, events + [e]) ==
            match ReadAll(handlers, events) case None => None case Some(open) => Read(handlers, open, e)
  {
    assert (events + [e])[..|events|] == events;
  }

  /** Crossing a block end reads as one move of the top bracket. */
  lemma {:induction false} ReadCrossed(handlers: seq<Handler>, events: seq<Event>, open: seq<Open>, h: nat, block: nat, o: int)
    requires h < |handlers| && block < Blocks(handlers[h])
    requires ReadAll(handlers, events) == Some(open + [InBlock(h, block)])
    ensures
      var crossed := Crossed(handlers[h], h, |open|, block, o);
      ReadAll(handlers, events + crossed) ==
        if crossed == [] then Some(open + [InBlock(h, block)])
        else if block < |handlers[h].catchHandlers| then Some(open + [InBlock(h, block + 1)])
        else Some(open + [Between(h, block)])
  {
    var crossed := Crossed(handlers[h], h, |open|, block, o);
    if crossed == [] {
      assert events + crossed == events;
    } else {
      ReadSnoc(handlers, events, crossed[0]);
      assert open + [InBlock(h, block)] == (open + [InBlock(h, block)])[..|open|] + [InBlock(h, block)];
      assert (open + [InBlock(h, block)])[..|open|] == open;
      if block < |handlers[h].catchHandlers| {
        ReadSnoc(handlers, events + [crossed[0]], crossed[1]);
        assert (open + [Between(h, block)])[..|open|] == open;
        assert events + crossed == (events + [crossed[0]]) + [crossed[1]];
      } else {
        assert events + crossed == events + [crossed[0]];
      }
    }
  }

  // ---------------------------------------------------------------------------------------------

  /** The plain filter: handlers that contain the offset, in table order. */
  function ActiveHandlers(handlers: seq<Handler>, o: int, n: nat): seq<nat>
    requires n <= |handlers|
  {
    if n == 0 then [] else
    ActiveHandlers(handlers, o, n - 1) + (if handlers[n - 1].ContainsOffset(o) then [n - 1] else [])
  }

  lemma {:induction false} ActiveMembers(handlers: seq<Handler>, o: int, n: nat)
    requires n <= |handlers|
    ensures IsAscending(ActiveHandlers(handlers, o, n))
    ensures forall i :: i in ActiveHandlers(handlers, o, n) <==> 0 <= i < n && handlers[i].ContainsOffset(o)
  {
    if n > 0 {
      ActiveMembers(handlers, o, n - 1);
      var s := ActiveHandlers(handlers, o, n - 1);
      assert forall i :: 0 <= i < |s| ==> s[i] in s;
    }
  }

  // ---------------------------------------------------------------------------------------------

  class ExceptionHandlerController {
    const handlers: seq<Handler>
    var queue: seq<(Handler, nat)>
    var stack: seq<HandlerState>
    var events: seq<Event>
    ghost var open: seq<Open>

    /** Handlers already taken from the queue. */
    ghost function Taken(): int
      reads `queue
    {
      |handlers| - |queue|
    }

    ghost predicate Valid()
      reads this, stack
    {
      IsTable(handlers) && QueueIsRest() && StackIsTaken() && IsBracketed()
    }

    ghost predicate QueueIsRest()
      reads `queue
    {
      |queue| <= |handlers| && forall i :: 0 <= i < |queue| ==> queue[i] == (handlers[Taken() + i], Taken() + i)
    }

    /** The stack holds entries taken from the table, outermost first. */
    ghost predicate StackIsTaken()
      reads `queue, `stack
    {
      IsTaken(stack)
    }

    ghost predicate IsEntry(state: HandlerState, k: nat)
      reads `queue
    {
      && state.handlerIndex < Taken() && state.handlerIndex < |handlers|
      && state.handler == handlers[state.handlerIndex] && state.nestedIndex == k
    }

    /** The callbacks made so far are bracketed, and what is open is what the states say. */
    ghost predicate IsBracketed()
      reads this, stack
    {
      && ReadAll(handlers, events) == Some(open) && |open| == |stack|
      && forall k :: 0 <= k < |stack| ==> IsOpen(stack[k], open[k])
    }

    ghost predicate IsOpen(state: HandlerState, b: Open)
      reads state
    {
      state.catchHandlerIndex >= -1 && b == InBlock(state.handlerIndex, state.catchHandlerIndex + 1)
    }

    /** The state agrees with the offset: started handlers are taken, and exactly the handlers that contain the
        offset are on the stack, each in the block that holds it. */
    ghost predicate Agrees(o: int)
      requires Valid()
      reads this, stack
    {
      && (forall i :: 0 <= i < |handlers| ==> (handlers[i].tryStart <= o <==> i < Taken()))
      && (forall k :: 0 <= k < |stack| ==> stack[k].IsAt(o))
      && (forall i :: 0 <= i < |handlers| && handlers[i].tryStart <= o < End(handlers[i]) ==> OnStack(i))
    }

    ghost predicate OnStack(i: nat)
      reads this, stack
    {
      exists k :: 0 <= k < |stack| && stack[k].handlerIndex == i
    }

    ghost function Indices(): (r: seq<nat>)
      reads this, stack
      ensures |r| == |stack| && forall k :: 0 <= k < |r| ==> r[k] == stack[k].handlerIndex
    {
      IndicesOf(stack)
    }

    constructor (handlers: seq<Handler>)
      requires IsTable(handlers)
      ensures Valid() && this.handlers == handlers && stack == [] && Taken() == 0 && events == []
      ensures forall o :: (forall i :: 0 <= i < |handlers| ==> handlers[i].tryStart > o) ==> Agrees(o)
    {
      this.handlers := handlers;
      queue := seq(|handlers|, i requires 0 <= i < |handlers| => (handlers[i], i));
      stack, events, open := [], [], [];
    }

    predicate IsFinished()
      reads this
    {
      |queue| == 0 && |stack| == 0
    }

    /** A handler is on the stack exactly if it contains the offset. */
    lemma OnStackIff(o: int, i: nat)
      requires Valid() && Agrees(o) && i < |handlers|
      ensures handlers[i].ContainsOffset(o) <==> OnStack(i)
    {
      hide ReadAll, IsContiguous, IsNested;
      ContainsIsRange(handlers[i], o);
      if k :| 0 <= k < |stack| && stack[k].handlerIndex == i {
        assert stack[k].IsAt(o);
        AtIsWithin(stack[k].handler, stack[k].catchHandlerIndex + 1, o);
      }
    }

    lemma IndicesMembers()
      requires Valid()
      ensures IsAscending(Indices())
      ensures forall i :: i in Indices() <==> 0 <= i < |handlers| && OnStack(i)
    {
      hide ReadAll, IsTable;
      var s := Indices();
      forall i ensures i in s <==> 0 <= i < |handlers| && OnStack(i) {
        if i in s {
          var k :| 0 <= k < |s| && s[k] == i;
          assert stack[k].handlerIndex == i;
        }
        if 0 <= i < |handlers| && OnStack(i) {
          var k :| 0 <= k < |stack| && stack[k].handlerIndex == i;
          assert s[k] == i;
        }
      }
    }

    /** The controller's stack is the plain filter's answer. */
    lemma {:induction false} StackIsActive(o: int)
      requires Valid() && Agrees(o)
      ensures Indices() == ActiveHandlers(handlers, o, |handlers|)
    {
      hide ReadAll, IsTable, IsAscending, Indices, OnStack, ActiveHandlers;
      ActiveMembers(handlers, o, |handlers|);
      IndicesMembers();
      forall i | 0 <= i < |handlers| ensures handlers[i].ContainsOffset(o) <==> OnStack(i) {
        OnStackIff(o, i);
      }
      AscendingIsUnique(Indices(), ActiveHandlers(handlers, o, |handlers|));
    }

    /** Takes the next handler from the queue: tryStart. */
    method Push(o: int)
      requires Valid() && |queue| >= 1 && queue[0].0.tryStart == o
      modifies this
      ensures Valid() && queue == old(queue)[1..]
      ensures |stack| == |old(stack)| + 1 && stack[..|stack| - 1] == old(stack)
      ensures fresh(stack[|stack| - 1]) && stack[|stack| - 1].IsAt(o) && stack[|stack| - 1].handlerIndex == old(Taken())
    {
      hide IsNested, ReadAll, Read, IsContiguous, IsTable;
      var (handler, handlerIndex) := queue[0];
      var nestedIndex := |stack|;
      PushReads(handlers, events, open, handlerIndex);
      StartIsIn(handlers, handlerIndex);
      events := events + [TryStart(handlerIndex, nestedIndex)];
      open := open + [InBlock(handlerIndex, 0)];
      queue := queue[1..];
      var state := new HandlerState(handler, handlerIndex, nestedIndex);
      stack := stack + [state];
    }

    /** Updates the innermost state and pops it when its last block has ended: finished. */
    method UpdateTop(o: int) returns (finish: bool)
      requires Valid() && stack != [] && stack[|stack| - 1].IsUpTo(o)
      modifies `stack, `events, `open, stack[|stack| - 1]
      ensures Valid()
      ensures finish <==> End(old(stack)[|old(stack)| - 1].handler) == o
      ensures stack == if finish then old(stack)[..|old(stack)| - 1] else old(stack)
      ensures !finish ==> stack[|stack| - 1].IsAt(o)
    {
      hide IsNested, Crossed, ReadAll, Read, IsContiguous, IsTable, IsTaken, QueueIsRest;
      var n := |stack| - 1;
      var state := stack[n];
      TopIsEntry();
      var parent: int := if n >= 1 then stack[n - 1].handlerIndex else -1;
      TopReads(handlers, events, open, o, parent);
      var crossed;
      finish, crossed := state.Update(o);
      events := events + crossed;
      if finish {
        PrefixIsTaken();
        stack := stack[..n];
        events := events + [Finished(state.handlerIndex, state.nestedIndex, parent)];
        open := open[..n];
      } else {
        open := open[..n] + [InBlock(state.handlerIndex, state.catchHandlerIndex + 1)];
      }
    }

    /** The innermost state belongs to its table entry, and no other entry shares it. */
    lemma TopIsEntry()
      requires Valid() && stack != []
      ensures
        var n := |stack| - 1;
        IsEntry(stack[n], n) && IsOpen(stack[n], open[n]) && (forall k :: 0 <= k < n ==> stack[k] != stack[n])
      ensures |stack| > 1 ==> open[|stack| - 2].handler == stack[|stack| - 2].handlerIndex
    {
      hide IsTable, ReadAll, QueueIsRest;
      if |stack| > 1 { assert IsOpen(stack[|stack| - 2], open[|stack| - 2]); }
    }

    ghost predicate IsTaken(s: seq<HandlerState>)
      reads `queue
    {
      && (forall k :: 0 <= k < |s| ==> IsEntry(s[k], k))
      && (forall k, l :: 0 <= k < l < |s| ==> s[k].handlerIndex < s[l].handlerIndex)
    }

    lemma PrefixIsTaken()
      requires StackIsTaken() && stack != []
      ensures IsTaken(stack[..|stack| - 1])
    {
    }

    /** Progress of one update: either handlers have started here and nothing was popped, or nothing has started
        and the popped states have ended here. States from before still stand where they stood. */
    ghost predicate IsUpdating(before: seq<HandlerState>, taken: int, prev: int, o: int)
      reads this, before, stack
    {
      && HasMoved(before, taken, o)
      && (forall k :: 0 <= k < |before| && k < |stack| ==> before[k].IsAt(prev))
      && (forall k :: |before| <= k < |stack| ==> stack[k].IsAt(o))
    }

    ghost predicate HasMoved(before: seq<HandlerState>, taken: int, o: int)
      reads this
    {
      && 0 <= taken <= Taken() <= |handlers|
      && (forall i :: taken <= i < Taken() ==> handlers[i].tryStart == o)
      && (Taken() > taken ==> |stack| == |before| + (Taken() - taken) && stack[..|before|] == before)
      && (Taken() == taken ==> |stack| <= |before| && stack == before[..|stack|])
      && (|stack| < |before| ==> !StartsHere(o))
      && (forall k :: |stack| <= k < |before| ==> End(before[k].handler) == o)
      && (forall k :: |before| <= k < |stack| ==> stack[k].handlerIndex == taken + (k - |before|))
    }

    predicate StartsHere(o: int)
      reads this
    {
      |queue| >= 1 && queue[0].0.tryStart == o
    }

    /** The same after the innermost state has been updated too. */
    ghost predicate IsUpdated(before: seq<HandlerState>, taken: int, prev: int, o: int)
      reads this, before, stack
    {
      && HasMoved(before, taken, o) && !StartsHere(o)
      && (forall k :: 0 <= k < |before| && k < |stack| - 1 ==> before[k].IsAt(prev))
      && (forall k :: |before| <= k < |stack| ==> stack[k].IsAt(o))
      && (stack != [] ==> stack[|stack| - 1].IsAt(o))
    }

    /** The innermost state's block starts before the offset and does not end before it. */
    lemma TopIsUpTo(before: seq<HandlerState>, taken: int, prev: int, o: int)
      requires Valid() && IsUpdating(before, taken, prev, o) && IsNextOffset(handlers, prev, o) && stack != []
      ensures stack[|stack| - 1].IsUpTo(o)
      ensures |stack| > |before| ==> End(stack[|stack| - 1].handler) != o
    {
      hide IsBracketed, QueueIsRest, IsTable, IsNextOffset;
      var n := |stack| - 1;
      var state := stack[n];
      assert IsEntry(state, n);
      TableIsContiguous(handlers, state.handlerIndex);
      if n < |before| {
        assert state == before[n] && state.IsAt(prev);
        NextInBlock(handlers, state.handlerIndex, state.catchHandlerIndex + 1, prev, o);
      } else {
        assert state.IsAt(o);
        AtIsWithin(state.handler, state.catchHandlerIndex + 1, o);
      }
    }

    lemma StartsUpdating(prev: int, o: int)
      requires Valid() && Agrees(prev)
      ensures IsUpdating(stack, Taken(), prev, o) && IsBefore(stack, Taken(), prev)
    {
      hide IsTable, IsBracketed;
      forall i | 0 <= i < |handlers| && handlers[i].tryStart <= prev < End(handlers[i])
        ensures exists k :: 0 <= k < |stack| && stack[k].handlerIndex == i
      {
        assert OnStack(i);
      }
      forall k | 0 <= k < |stack|
        ensures stack[k].handlerIndex < |handlers| && stack[k].handler == handlers[stack[k].handlerIndex]
      {
        assert IsEntry(stack[k], k);
      }
    }

    /** What agreeing with the previous offset said about the stack and the queue. */
    ghost predicate IsBefore(before: seq<HandlerState>, taken: int, prev: int) {
      && (forall i :: 0 <= i < |handlers| ==> (handlers[i].tryStart <= prev <==> i < taken))
      && (forall i :: 0 <= i < |handlers| && handlers[i].tryStart <= prev < End(handlers[i]) ==>
            exists k :: 0 <= k < |before| && before[k].handlerIndex == i)
      && (forall k :: 0 <= k < |before| ==>
            before[k].handlerIndex < |handlers| && before[k].handler == handlers[before[k].handlerIndex])
    }

    lemma HeadEntry()
      requires QueueIsRest() && |queue| >= 1
      ensures queue[0] == (handlers[Taken()], Taken())
    {
    }

    /** One turn of the loop that starts a handler. */
    method StartStep(o: int, ghost prev: int, ghost before: seq<HandlerState>, ghost taken: int)
      requires Valid() && IsUpdating(before, taken, prev, o) && StartsHere(o)
      requires forall k :: 0 <= k < |stack| ==> allocated(stack[k])
      modifies this
      ensures Valid() && IsUpdating(before, taken, prev, o) && |queue| < old(|queue|)
      ensures forall k :: 0 <= k < |stack| ==> stack[k] in old(stack) || fresh(stack[k])
    {
      hide IsTable, IsBracketed, IsTaken, QueueIsRest, HandlerState.IsAt;
      HeadEntry();
      Push(o);
      assert stack == stack[..|stack| - 1] + [stack[|stack| - 1]];
      assert |stack| - 1 >= |before|;
      assert stack[..|before|] == before;
    }

    /** One turn of the loop that updates the innermost state. */
    method TopStep(o: int, ghost prev: int, ghost before: seq<HandlerState>, ghost taken: int) returns (finish: bool)
      requires Valid() && IsUpdating(before, taken, prev, o) && !StartsHere(o)
      requires IsNextOffset(handlers, prev, o) && stack != []
      modifies this, stack[|stack| - 1]
      ensures Valid() && queue == old(queue)
      ensures finish ==> IsUpdating(before, taken, prev, o) && |stack| < old(|stack|)
      ensures !finish ==> IsUpdated(before, taken, prev, o)
      ensures forall k :: 0 <= k < |stack| ==> stack[k] in old(stack)
    {
      hide IsTable, IsBracketed, IsTaken, QueueIsRest, IsNextOffset;
      TopIsUpTo(before, taken, prev, o);
      TopIsEntry();
      ghost var top := stack[|stack| - 1];
      finish := UpdateTop(o);
      if finish {
        assert Taken() == taken && top == before[|stack|] && End(top.handler) == o;
        assert |stack| < |before| && stack == before[..|stack|];
      }
    }

    /** What happens at one offset: afterwards the state agrees with it, unless a try starts where another
        handler's block ends. */
    method Update(o: int, ghost prev: int)
      requires Valid() && Agrees(prev) && IsNextOffset(handlers, prev, o)
      modifies this, stack
      ensures Valid()
      ensures Agrees(o) <==> !Clashes(handlers, o)
      ensures forall k :: 0 <= k < |stack| ==> stack[k] in old(stack) || fresh(stack[k])
    {
      hide IsTable, IsNextOffset, IsBracketed, IsTaken, QueueIsRest, IsContiguous, Clashes, HasMoved, HandlerState.IsAt;
      ghost var before, taken := stack, Taken();
      StartsUpdating(prev, o);
      while true
        invariant Valid() && IsUpdating(before, taken, prev, o)
        invariant forall k :: 0 <= k < |stack| ==> stack[k] in before || fresh(stack[k])
        decreases |queue|, |stack|
      {
        if |queue| >= 1 {
          var entry := queue[0];
          if entry.0.tryStart == o {
            StartStep(o, prev, before, taken);
            continue;
          }
        }
        if |stack| >= 1 {
          var finish := TopStep(o, prev, before, taken);
          if finish {
            continue;
          }
        }
        break;
      }
      assert IsUpdated(before, taken, prev, o);
      MovedForward(before, taken, prev, o);
      if Taken() == taken {
        NothingStarted(before, taken, prev, o);
      } else {
        SomethingStarted(before, taken, prev, o);
      }
    }

    /** Exactly the handlers taken so far have started. */
    lemma StartedAreTaken(before: seq<HandlerState>, taken: int, prev: int, o: int)
      requires IsTable(handlers) && QueueIsRest() && !StartsHere(o) && HasMoved(before, taken, o)
      requires IsBefore(before, taken, prev) && IsNextOffset(handlers, prev, o)
      ensures forall i :: 0 <= i < |handlers| ==> (handlers[i].tryStart <= o <==> i < Taken())
      ensures Taken() == taken ==> forall i :: 0 <= i < |handlers| ==> handlers[i].tryStart != o
    {
      hide IsContiguous, IsNested;
      if |queue| >= 1 { HeadEntry(); }
      forall i | 0 <= i < |handlers| ensures handlers[i].tryStart <= o <==> i < Taken() {
        if i >= Taken() { assert handlers[Taken()].tryStart <= handlers[i].tryStart; }
      }
    }

    /** A handler that held the previous offset has its state on the stack unless it has ended. */
    lemma OldStays(before: seq<HandlerState>, taken: int, prev: int, o: int, i: nat)
      requires HasMoved(before, taken, o) && IsBefore(before, taken, prev) && i < |handlers|
      requires handlers[i].tryStart <= prev && prev < o < End(handlers[i])
      ensures OnStack(i)
    {
      var k :| 0 <= k < |before| && before[k].handlerIndex == i;
      assert k < |stack|;
      assert stack[k] == before[k];
    }

    /** No handler starts here: what is left on the stack has not ended, and what has ended is gone. */
    lemma NothingStarted(before: seq<HandlerState>, taken: int, prev: int, o: int)
      requires Valid() && IsUpdated(before, taken, prev, o) && IsBefore(before, taken, prev)
      requires IsNextOffset(handlers, prev, o) && Taken() == taken
      ensures Agrees(o) && !Clashes(handlers, o)
    {
      hide IsTable, QueueIsRest, IsBracketed, IsNextOffset, OnStack;
      StartedAreTaken(before, taken, prev, o);
      assert prev < o by { NextIsLater(handlers, prev, o); }
      forall k | 0 <= k < |stack| ensures stack[k].IsAt(o) {
        if k < |stack| - 1 {
          var top := stack[|stack| - 1];
          assert IsEntry(stack[k], k) && IsEntry(top, |stack| - 1);
          assert stack[k] == before[k] && before[k].IsAt(prev);
          InnerNotEnded(handlers, stack[k].handlerIndex, stack[k].catchHandlerIndex + 1, top.handlerIndex,
                        top.catchHandlerIndex + 1, prev, o);
        }
      }
      forall i | 0 <= i < |handlers| && handlers[i].tryStart <= o < End(handlers[i]) ensures OnStack(i) {
        OldStays(before, taken, prev, o, i);
      }
    }

    /** Some handlers start here: the states below them are right exactly if no block ends here. */
    lemma SomethingStarted(before: seq<HandlerState>, taken: int, prev: int, o: int)
      requires Valid() && IsUpdated(before, taken, prev, o) && IsBefore(before, taken, prev)
      requires IsNextOffset(handlers, prev, o) && Taken() > taken >= 0
      ensures Agrees(o) <==> !Clashes(handlers, o)
    {
      hide IsTable, QueueIsRest, IsBracketed, IsNextOffset, OnStack, HasMoved, HandlerState.IsAt, IsBefore, Agrees, IsTaken;
      assert handlers[taken].tryStart == o by { MovedForward(before, taken, prev, o); }
      if i :| 0 <= i < |handlers| && IsBlockEnd(handlers[i], o) {
        StartClashes(before, taken, prev, o, i);
      } else {
        StartAgrees(before, taken, prev, o);
      }
    }

    lemma MovedForward(before: seq<HandlerState>, taken: int, prev: int, o: int)
      requires HasMoved(before, taken, o)
      ensures 0 <= taken <= Taken() && (taken < Taken() ==> handlers[taken].tryStart == o)
    {
    }

    lemma StartClashes(before: seq<HandlerState>, taken: int, prev: int, o: int, i: nat)
      requires Valid() && IsUpdated(before, taken, prev, o) && IsBefore(before, taken, prev)
      requires IsNextOffset(handlers, prev, o) && Taken() > taken >= 0 && i < |handlers| && IsBlockEnd(handlers[i], o)
      ensures !Agrees(o)
    {
      hide IsTable, QueueIsRest, IsBracketed, IsNextOffset, OnStack, IsTaken, IsContiguous, IsBlockEnd, IsBefore;
      NextIsLater(handlers, prev, o);
      var m, k := EndedWasOnStack(before, taken, prev, o, i);
      TableIsContiguous(handlers, i);
      assert stack[k] == stack[..|before|][k] == before[k] && before[k].IsAt(prev);
      NextInBlock(handlers, i, before[k].catchHandlerIndex + 1, prev, o);
      EndsExactly(handlers[i], before[k].catchHandlerIndex + 1, m, prev, o);
      assert !stack[k].IsAt(o);
    }

    /** A handler with a block that ends here held the previous offset. */
    lemma EndedWasOnStack(before: seq<HandlerState>, taken: int, prev: int, o: int, i: nat) returns (m: nat, k: nat)
      requires IsTable(handlers) && IsBefore(before, taken, prev) && IsNextOffset(handlers, prev, o)
      requires i < |handlers| && IsBlockEnd(handlers[i], o)
      ensures m < Blocks(handlers[i]) && BlockEnd(handlers[i], m) == o
      ensures k < |before| && before[k].handlerIndex == i && before[k].handler == handlers[i]
    {
      hide IsTable, IsNextOffset, IsContiguous;
      m :| 0 <= m < Blocks(handlers[i]) && BlockEnd(handlers[i], m) == o;
      HeldPrevious(handlers, i, m, prev, o);
      k :| 0 <= k < |before| && before[k].handlerIndex == i;
    }

    lemma StartAgrees(before: seq<HandlerState>, taken: int, prev: int, o: int)
      requires Valid() && IsUpdated(before, taken, prev, o) && IsBefore(before, taken, prev)
      requires IsNextOffset(handlers, prev, o) && Taken() > taken >= 0
      requires forall i :: 0 <= i < |handlers| ==> !IsBlockEnd(handlers[i], o)
      ensures Agrees(o)
    {
      hide IsTable, QueueIsRest, IsBracketed, IsNextOffset, OnStack, IsTaken;
      StartedAreTaken(before, taken, prev, o);
      NextIsLater(handlers, prev, o);
      forall k | 0 <= k < |stack| ensures stack[k].IsAt(o) {
        if k < |before| {
          assert stack[k] == stack[..|before|][k] == before[k] && before[k].IsAt(prev);
          NextInBlock(handlers, before[k].handlerIndex, before[k].catchHandlerIndex + 1, prev, o);
          assert !IsBlockEnd(before[k].handler, o);
        }
      }
      forall i | 0 <= i < |handlers| && handlers[i].tryStart <= o < End(handlers[i]) ensures OnStack(i) {
        if i < taken {
          OldStays(before, taken, prev, o, i);
        } else {
          StackHolds(|before| + (i - taken), i);
        }
      }
    }

    /** At the end of the code: everything is finished exactly if at most one handler runs up to the end. */
    method TryFinish(ghost last: int, ghost end: int)
      requires Valid() && Agrees(last) && IsNextOffset(handlers, last, end)
      requires forall i :: 0 <= i < |handlers| ==> End(handlers[i]) <= end
      modifies this, stack
      ensures Valid()
      ensures IsFinished() <==> |old(stack)| <= 1
      ensures ReadAll(handlers, events).Some?
      ensures IsFinished() ==> ReadAll(handlers, events) == Some([])
    {
      hide IsNested, Crossed, ReadAll, Read, IsContiguous, IsTable, IsTaken, IsNextOffset, QueueIsRest;
      QueueIsEmpty(last, end);
      if |queue| == 0 && |stack| == 1 {
        var state := stack[0];
        TopIsEntry();
        LastBlock(last, end);
        TopReads(handlers, events, open, End(state.handler), -1);
        var finish, crossed := state.TryFinish();
        assert finish;
        PrefixIsTaken();
        events := events + crossed + [Finished(state.handlerIndex, state.nestedIndex, -1)];
        stack, open := [], [];
      }
    }

    lemma QueueIsEmpty(last: int, end: int)
      requires Valid() && Agrees(last) && IsNextOffset(handlers, last, end)
      requires forall i :: 0 <= i < |handlers| ==> End(handlers[i]) <= end
      ensures queue == []
    {
      hide IsNested, ReadAll;
      if queue != [] {
        var h := handlers[Taken()];
        TableIsContiguous(handlers, Taken());
        BlocksOrdered(h, 0, Blocks(h) - 1);
      }
    }

    /** A handler that is still open behind the last code is in its last block. */
    lemma LastBlock(last: int, end: int)
      requires Valid() && Agrees(last) && IsNextOffset(handlers, last, end) && stack != []
      requires forall i :: 0 <= i < |handlers| ==> End(handlers[i]) <= end
      ensures
        var state := stack[|stack| - 1];
        && IsContiguous(state.handler) && state.catchHandlerIndex + 1 == Blocks(state.handler) - 1 && state.inBlock
    {
      hide IsTable, IsBracketed, QueueIsRest, IsNextOffset, IsContiguous, IsTaken;
      TopIsEntry();
      var state := stack[|stack| - 1];
      assert state.IsAt(last);
      TableIsContiguous(handlers, state.handlerIndex);
      NextInBlock(handlers, state.handlerIndex, state.catchHandlerIndex + 1, last, end);
      var block := state.catchHandlerIndex + 1;
      EndsLast(state.handler, block, end);
    }

    lemma StackHolds(k: nat, i: nat)
      requires k < |stack| && stack[k].handlerIndex == i
      ensures OnStack(i)
    {
    }
  }

  lemma NextIsLater(handlers: seq<Handler>, prev: int, o: int)
    requires IsNextOffset(handlers, prev, o)
    ensures prev < o
  {
  }

  lemma HeldPrevious(handlers: seq<Handler>, i: nat, m: nat, prev: int, o: int)
    requires IsTable(handlers) && IsNextOffset(handlers, prev, o) && i < |handlers|
    requires m < Blocks(handlers[i]) && BlockEnd(handlers[i], m) == o
    ensures handlers[i].tryStart <= prev < End(handlers[i])
  {
    hide IsTable;
    TableIsContiguous(handlers, i);
    BlocksOrdered(handlers[i], 0, m);
    BlocksOrdered(handlers[i], m, Blocks(handlers[i]) - 1);
  }

  lemma BlockIsUnique(h: Handler, a: nat, b: nat, o: int)
    requires IsContiguous(h) && a < Blocks(h) && b < Blocks(h)
    requires BlockStart(h, a) <= o < BlockEnd(h, a) && BlockStart(h, b) <= o < BlockEnd(h, b)
    ensures a == b
  {
    if a < b { BlocksOrdered(h, a, b); }
    if b < a { BlocksOrdered(h, b, a); }
  }

  /** While an inner handler goes on, the block of an outer one that holds it goes on. */
  lemma InnerNotEnded(handlers: seq<Handler>, i: nat, block: nat, t: nat, inner: nat, prev: int, o: int)
    requires IsTable(handlers) && i < t < |handlers| && IsNextOffset(handlers, prev, o)
    requires block < Blocks(handlers[i]) && BlockStart(handlers[i], block) <= prev < BlockEnd(handlers[i], block)
    requires inner < Blocks(handlers[t]) && BlockStart(handlers[t], inner) <= o < BlockEnd(handlers[t], inner)
    requires handlers[t].tryStart <= prev
    ensures BlockStart(handlers[i], block) <= o < BlockEnd(handlers[i], block)
  {
    hide IsContiguous, IsNextOffset;
    NextIsLater(handlers, prev, o);
    TableIsContiguous(handlers, i);
    TableIsContiguous(handlers, t);
    AtIsWithin(handlers[i], block, prev);
    AtIsWithin(handlers[t], inner, o);
    assert IsNested(handlers[i], handlers[t]);
    var m :| 0 <= m < Blocks(handlers[i]) && BlockStart(handlers[i], m) <= handlers[t].tryStart && End(handlers[t]) <= BlockEnd(handlers[i], m);
    BlockIsUnique(handlers[i], block, m, prev);
  }

  lemma EndsLast(h: Handler, block: nat, end: int)
    requires IsContiguous(h) && block < Blocks(h) && BlockEnd(h, block) >= end >= End(h)
    ensures block == Blocks(h) - 1
  {
    if block < Blocks(h) - 1 { BlocksOrdered(h, block, Blocks(h) - 1); }
  }

  /** If some block ends at the next offset, it is the one that holds the previous offset. */
  lemma EndsExactly(h: Handler, block: nat, m: nat, prev: int, o: int)
    requires IsContiguous(h) && block < Blocks(h) && m < Blocks(h) && prev < o
    requires BlockStart(h, block) <= prev && o <= BlockEnd(h, block) && BlockEnd(h, m) == o
    ensures BlockEnd(h, block) == o
  {
    if m < block { BlocksOrdered(h, m, block); } else { BlocksOrdered(h, block, m); }
  }

  /** A block that holds the previous offset does not end before the next one. */
  lemma NextInBlock(handlers: seq<Handler>, i: nat, block: nat, prev: int, o: int)
    requires IsNextOffset(handlers, prev, o) && i < |handlers| && block < Blocks(handlers[i])
    requires BlockStart(handlers[i], block) <= prev < BlockEnd(handlers[i], block)
    ensures BlockStart(handlers[i], block) <= o <= BlockEnd(handlers[i], block)
  {
  }

  lemma {:induction false} PushReads(handlers: seq<Handler>, events: seq<Event>, open: seq<Open>, h: nat)
    requires ReadAll(handlers, events) == Some(open)
    ensures ReadAll(handlers, events + [TryStart(h, |open|)]) == Some(open + [InBlock(h, 0)])
  {
    ReadSnoc(handlers, events, TryStart(h, |open|));
  }

  /** Updating the top state reads as a move of the top bracket, or closes it. */
  lemma {:induction false} TopReads(handlers: seq<Handler>, events: seq<Event>, open: seq<Open>, o: int, parent: int)
    requires IsTable(handlers) && ReadAll(handlers, events) == Some(open) && open != []
    requires open[|open| - 1].InBlock? && open[|open| - 1].handler < |handlers|
    requires open[|open| - 1].block < Blocks(handlers[open[|open| - 1].handler])
    requires parent == if |open| > 1 then open[|open| - 2].handler else -1
    ensures
      var n := |open| - 1;
      var (h, block) := (open[n].handler, open[n].block);
      var crossed := Crossed(handlers[h], h, n, block, o);
      && IsContiguous(handlers[h])
      && (block < |handlers[h].catchHandlers| || crossed == [] ==>
            ReadAll(handlers, events + crossed) == Some(open[..n] + [InBlock(h, if crossed == [] then block else block + 1)]))
      && (block == |handlers[h].catchHandlers| && crossed != [] ==>
            ReadAll(handlers, events + crossed + [Finished(h, n, parent)]) == Some(open[..n]))
      && (crossed == [] <==> BlockEnd(handlers[h], block) != o)
  {
    hide IsNested, Crossed;
    var n := |open| - 1;
    var (h, block) := (open[n].handler, open[n].block);
    var crossed := Crossed(handlers[h], h, n, block, o);
    assert open == open[..n] + [InBlock(h, block)];
    ReadCrossed(handlers, events, open[..n], h, block, o);
    CrossedShape(handlers[h], h, n, block, o);
    if block == |handlers[h].catchHandlers| && crossed != [] {
      var between := open[..n] + [Between(h, block)];
      ReadSnoc(handlers, events + crossed, Finished(h, n, parent));
      assert between[..n] == open[..n];
    }
  }

  lemma StartIsIn(handlers: seq<Handler>, i: nat)
    requires IsTable(handlers) && i < |handlers|
    ensures handlers[i].tryStart < handlers[i].tryEnd
  {
    assert BlockStart(handlers[i], 0) < BlockEnd(handlers[i], 0);
  }

  lemma TableIsContiguous(handlers: seq<Handler>, i: nat)
    requires IsTable(handlers) && i < |handlers|
    ensures IsContiguous(handlers[i])
  {
  }

  lemma CrossedShape(h: Handler, handler: nat, nested: nat, block: nat, o: int)
    requires block < Blocks(h)
    ensures
      var crossed := Crossed(h, handler, nested, block, o);
      && (crossed == [] <==> BlockEnd(h, block) != o)
      && (block == Blocks(h) - 1 <==> block == |h.catchHandlers|)
  {
  }

  function IndicesOf(stack: seq<HandlerState>): (r: seq<nat>)
    ensures |r| == |stack| && forall k :: 0 <= k < |r| ==> r[k] == stack[k].handlerIndex
  {
    if stack == [] then [] else IndicesOf(stack[..|stack| - 1]) + [stack[|stack| - 1].handlerIndex]
  }

  lemma AtIsWithin(h: Handler, block: nat, o: int)
    requires IsContiguous(h) && block < Blocks(h) && BlockStart(h, block) <= o < BlockEnd(h, block)
    ensures h.tryStart <= o < End(h)
  {
    BlocksOrdered(h, 0, block);
    BlocksOrdered(h, block, Blocks(h) - 1);
  }

  function Previous(offsets: seq<int>, k: nat): int
    requires k <= |offsets|
  {
    if k == 0 then -1 else offsets[k - 1]
  }

  /** Every start and every end of a block is the offset of some code or the end of the method. */
  ghost predicate CoversTable(handlers: seq<Handler>, offsets: seq<int>, end: int) {
    && (forall i :: 0 <= i < |handlers| ==> handlers[i].tryStart >= 0 && End(handlers[i]) <= end)
    && (forall k :: 0 <= k < |offsets| ==> IsNextOffset(handlers, Previous(offsets, k), offsets[k]))
    && IsNextOffset(handlers, Previous(offsets, |offsets|), end)
  }

  /** The emission loop: at every offset the controller's stack is what the plain filter says, the callbacks are
      bracketed, and all handlers are finished exactly if at most one of them runs up to the end of the method. */
  method WriteBody(handlers: seq<Handler>, offsets: seq<int>, end: int)
    returns (isFinished: bool, events: seq<Event>, ghost stacks: seq<seq<nat>>)
    requires IsTable(handlers) && CoversTable(handlers, offsets, end)
    requires forall k :: 0 <= k < |offsets| ==> !Clashes(handlers, offsets[k])
    ensures |stacks| == |offsets|
    ensures forall k :: 0 <= k < |offsets| ==> stacks[k] == ActiveHandlers(handlers, offsets[k], |handlers|)
    ensures isFinished <==> |ActiveHandlers(handlers, Previous(offsets, |offsets|), |handlers|)| <= 1
    ensures ReadAll(handlers, events).Some?
    ensures isFinished ==> ReadAll(handlers, events) == Some([])
  {
    hide IsTable, IsNextOffset, Clashes, ReadAll, ActiveHandlers, ExceptionHandlerController.Valid, ExceptionHandlerController.Agrees;
    var c := new ExceptionHandlerController(handlers);
    stacks := [];
    var n := 0;
    while n < |offsets|
      invariant 0 <= n <= |offsets| == |stacks| + (|offsets| - n)
      invariant c.Valid() && c.handlers == handlers && c.Agrees(Previous(offsets, n)) && fresh(c)
      invariant forall k :: 0 <= k < |c.stack| ==> fresh(c.stack[k])
      invariant forall k :: 0 <= k < n ==> stacks[k] == ActiveHandlers(handlers, offsets[k], |handlers|)
    {
      c.Update(offsets[n], Previous(offsets, n));
      c.StackIsActive(offsets[n]);
      stacks := stacks + [c.Indices()];
      n := n + 1;
    }
    c.StackIsActive(Previous(offsets, n));
    c.TryFinish(Previous(offsets, n), end);
    isFinished, events := c.IsFinished(), c.events;
  }

  /** Two protected regions right behind one another: the second one starts where the first one's handler ends. */
  lemma AdjacentRegionsClash()
    ensures
      var table := [Handler(0, 1, [CatchHandler(1, 2)]), Handler(2, 3, [CatchHandler(3, 4)])];
      IsTable(table) && CoversTable(table, [0, 1, 2, 3], 4) && Clashes(table, 2)
  {
    var table := [Handler(0, 1, [CatchHandler(1, 2)]), Handler(2, 3, [CatchHandler(3, 4)])];
    assert BlockEnd(table[0], 1) == 2 && table[1].tryStart == 2;
    assert IsBlockEnd(table[0], 2);
  }
}
