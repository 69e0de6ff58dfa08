/** What unwinding by long jumps makes of a run, and exactly when that is the run's meaning
    (IL2C.Runtime/src/Core/il2c_exception.c). */
module Unwinding {
  import opened Wrappers
  import opened Exceptions

  /** What runs inside a protected block: its body, a finally block that was reached normally, or a handler that was
      sent an exception. */
  datatype Phase = Body | Finishing | Handling

  /** An open protected block; lists of blocks start with the innermost one. */
  datatype Block = Block(filter: Filter, phase: Phase)

  predicate Accepts(b: Block, ex: Exc) { FilterNumber(b.filter, ex) != FILTER_NOMATCH }

  /** The block that the scan finds: it asks the filters, and does not know which handlers are running already. */
  function Reached(blocks: seq<Block>, ex: Exc): (n: nat)
    ensures n <= |blocks|
    ensures n < |blocks| ==> Accepts(blocks[n], ex)
    ensures forall i :: 0 <= i < n ==> !Accepts(blocks[i], ex)
  {
    if blocks == [] || Accepts(blocks[0], ex) then 0 else 1 + Reached(blocks[1..], ex)
  }

  /** The block that should receive the exception: a handler that runs already does not protect itself. */
  function Proper(blocks: seq<Block>, ex: Exc): (n: nat)
    ensures n <= |blocks|
    ensures n < |blocks| ==> blocks[n].phase.Body? && Accepts(blocks[n], ex)
    ensures forall i :: 0 <= i < n && blocks[i].phase.Body? ==> !Accepts(blocks[i], ex)
  {
    if blocks == [] || (blocks[0].phase.Body? && Accepts(blocks[0], ex)) then 0 else 1 + Proper(blocks[1..], ex)
  }

  /** No running handler in front of the proper block accepts the exception. */
  predicate IsClear(blocks: seq<Block>, ex: Exc) {
    forall i :: 0 <= i < Proper(blocks, ex) && !blocks[i].phase.Body? ==> !Accepts(blocks[i], ex)
  }

  lemma {:induction false} ReachedIsProper(blocks: seq<Block>, ex: Exc)
    ensures Reached(blocks, ex) == Proper(blocks, ex) <==> IsClear(blocks, ex)
    ensures !IsClear(blocks, ex) ==> Reached(blocks, ex) < Proper(blocks, ex) && !blocks[Reached(blocks, ex)].phase.Body?
  {
    var r, p := Reached(blocks, ex), Proper(blocks, ex);
    assert r < |blocks| ==> Accepts(blocks[r], ex);
    assert p < |blocks| ==> Accepts(blocks[p], ex);
  }

  /** A throw looks past a handler that was sent an exception, if it comes from that handler directly. */
  function Exposed(blocks: seq<Block>): seq<Block> {
    if blocks != [] && blocks[0].phase.Handling? then blocks[1..] else blocks
  }

  /** How code is left: as it should be, by a jump into a block that runs its handler already (named by the number of
      blocks around it), or not followed further because that handler has been entered a second time. */
  datatype Outcome = Ended(ending: Ending) | Astray(depth: nat, ex: Exc) | Again

  function Sent(blocks: seq<Block>, ex: Exc): Outcome {
    var n := Reached(blocks, ex);
    if n == Proper(blocks, ex) then Ended(Raised(ex)) else Astray(|blocks| - 1 - n, ex)
  }

  /** What the generated code does, up to the first time that a running handler is entered again. */
  function Actual(s: Stmt, blocks: seq<Block>, caught: Option<Exc>): (Outcome, seq<Event>) {
    match s
    case Work(tag) => (Ended(Done), [Did(tag)])
    case Seq(first, second) =>
      var (r, e) := Actual(first, blocks, caught);
      if r != Ended(Done) then (r, e) else
      var (q, f) := Actual(second, blocks, caught);
      (q, e + f)
    case Call(body) => Actual(body, blocks, None)
    case Throw(ex) => (Sent(Exposed(blocks), ex), [])
    case Rethrow => (if caught.Some? then Sent(Exposed(blocks), caught.value) else Ended(Done), [])
    case TryCatch(body, types, handlers) =>
      var filter := Catches(types);
      var (r, e) := Actual(body, [Block(filter, Body)] + blocks, caught);
      if !(r.Ended? && r.ending.Raised?) then (r, e) else
      var ex := r.ending.ex;
      var n := FilterNumber(filter, ex);
      if !(0 < n <= |handlers|) then (r, e) else
      var (q, f) := Actual(handlers[n - 1], [Block(filter, Handling)] + blocks, Some(ex));
      var done := e + [EnteredCatch(n, ex)] + f;
      if q.Astray? && q.depth == |blocks| then (Again, done + [EnteredCatch(FilterNumber(filter, q.ex), q.ex)]) else (q, done)
    case TryFinally(body, handler) =>
      var (r, e) := Actual(body, [Block(Finally, Body)] + blocks, caught);
      if !r.Ended? then (r, e) else
      var phase := if r.ending.Raised? then Handling else Finishing;
      var (q, f) := Actual(handler, [Block(Finally, phase)] + blocks, None);
      var done := e + [EnteredFinally] + f;
      if q.Astray? && q.depth == |blocks| then (Again, done + [EnteredFinally])
      else if q == Ended(Done) && r.ending.Raised? then (Sent(blocks, r.ending.ex), done)
      else (q, done)
  }

  /** No exception of the run meets a running handler that accepts it in front of the block it belongs to. */
  predicate IsSafe(s: Stmt, blocks: seq<Block>, caught: Option<Exc>) {
    match s
    case Work(_) => true
    case Seq(first, second) =>
      IsSafe(first, blocks, caught) && (Eval(first, caught).0.Done? ==> IsSafe(second, blocks, caught))
    case Call(body) => IsSafe(body, blocks, None)
    case Throw(ex) => IsClear(Exposed(blocks), ex)
    case Rethrow => caught.Some? ==> IsClear(Exposed(blocks), caught.value)
    case TryCatch(body, types, handlers) =>
      && IsSafe(body, [Block(Catches(types), Body)] + blocks, caught)
      && (Eval(body, caught).0.Raised? ==>
            var ex := Eval(body, caught).0.ex;
            var n := FilterNumber(Catches(types), ex);
            0 < n <= |handlers| ==> IsSafe(handlers[n - 1], [Block(Catches(types), Handling)] + blocks, Some(ex)))
    case TryFinally(body, handler) =>
      var r := Eval(body, caught).0;
      && IsSafe(body, [Block(Finally, Body)] + blocks, caught)
      && IsSafe(handler, [Block(Finally, if r.Raised? then Handling else Finishing)] + blocks, None)
      && (r.Raised? && Eval(handler, None).0.Done? ==> IsClear(blocks, r.ex))
  }

  /** A jump into a running handler: no protected body between the throw and it accepts the exception. */
  predicate IsAstray(blocks: seq<Block>, depth: nat, ex: Exc) {
    && depth < |blocks|
    && var i := |blocks| - 1 - depth; i < Proper(blocks, ex) && !blocks[i].phase.Body? && Accepts(blocks[i], ex)
  }

  ghost predicate SentRightly(r: Outcome, blocks: seq<Block>, exposed: seq<Block>, ex: Exc) {
    && (r.Ended? <==> IsClear(exposed, ex)) && (r.Ended? ==> r == Ended(Raised(ex))) && !r.Again?
    && (r.Astray? ==> r.ex == ex && IsAstray(blocks, r.depth, ex))
  }

  lemma SentMeaning(blocks: seq<Block>, ex: Exc)
    ensures SentRightly(Sent(blocks, ex), blocks, blocks, ex)
    ensures SentRightly(Sent(Exposed(blocks), ex), blocks, Exposed(blocks), ex)
  {
    var x := Exposed(blocks);
    ReachedIsProper(blocks, ex);
    ReachedIsProper(x, ex);
    assert x == blocks || (x == blocks[1..] && Proper(blocks, ex) == 1 + Proper(x, ex));
  }

  /** A block whose body runs lets a stray exception pass only if it declines it. */
  lemma AstrayOutward(b: Block, blocks: seq<Block>, depth: nat, ex: Exc)
    requires IsAstray([b] + blocks, depth, ex)
    ensures b.phase.Body? ==> !Accepts(b, ex) && b.filter.Catches? && depth != |blocks|
    ensures depth != |blocks| ==> IsAstray(blocks, depth, ex)
  {
    var inner := [b] + blocks;
    assert inner[1..] == blocks && inner[0] == b;
    var i := |inner| - 1 - depth;
    assert i > 0 ==> inner[i] == blocks[i - 1];
  }

  /** The generated code follows the meaning of a run exactly if the run is safe. Otherwise it is right up to the first
      wrong landing, and then enters a handler that it must not enter. */
  lemma {:induction false} ActualIsMeaning(s: Stmt, blocks: seq<Block>, caught: Option<Exc>)
    ensures IsMeaning(s, blocks, caught)
  {
    hide IsAstray, IsClear, Sent, Exposed, FilterNumber;
    match s {
      case Work(tag) =>
      case Seq(first, second) =>
        ActualIsMeaning(first, blocks, caught);
        ActualIsMeaning(second, blocks, caught);
      case Call(body) => ActualIsMeaning(body, blocks, None);
      case Throw(ex) => SentMeaning(blocks, ex);
      case Rethrow => if caught.Some? { SentMeaning(blocks, caught.value); }
      case TryCatch(body, types, handlers) =>
        ActualIsMeaning(body, [Block(Catches(types), Body)] + blocks, caught);
        forall i | 0 <= i < |handlers| ensures forall ex :: IsMeaning(handlers[i], [Block(Catches(types), Handling)] + blocks, Some(ex)) {
          forall ex ensures IsMeaning(handlers[i], [Block(Catches(types), Handling)] + blocks, Some(ex)) {
            ActualIsMeaning(handlers[i], [Block(Catches(types), Handling)] + blocks, Some(ex));
          }
        }
        TryCatchIsMeaning(s, blocks, caught);
      case TryFinally(body, handler) =>
        ActualIsMeaning(body, [Block(Finally, Body)] + blocks, caught);
        ActualIsMeaning(handler, [Block(Finally, Handling)] + blocks, None);
        ActualIsMeaning(handler, [Block(Finally, Finishing)] + blocks, None);
        TryFinallyIsMeaning(s, blocks, caught);
    }
  }

  ghost predicate IsMeaning(s: Stmt, blocks: seq<Block>, caught: Option<Exc>) {
    var (r, e) := Actual(s, blocks, caught);
    && (IsSafe(s, blocks, caught) <==> r.Ended?)
    && (r.Ended? ==> Eval(s, caught) == (r.ending, e))
    && (r.Astray? ==> Eval(s, caught) == (Raised(r.ex), e) && IsAstray(blocks, r.depth, r.ex))
    && (r.Again? ==> e != [] && e[..|e| - 1] <= Eval(s, caught).1)
  }

  lemma TryCatchIsMeaning(s: Stmt, blocks: seq<Block>, caught: Option<Exc>)
    requires s.TryCatch? && IsMeaning(s.body, [Block(Catches(s.types), Body)] + blocks, caught)
    requires forall i, ex :: 0 <= i < |s.handlers| ==> IsMeaning(s.handlers[i], [Block(Catches(s.types), Handling)] + blocks, Some(ex))
    ensures IsMeaning(s, blocks, caught)
  {
    hide IsAstray, IsClear, Sent, Exposed, FilterNumber;
    var filter := Catches(s.types);
    var (r, e) := Actual(s.body, [Block(filter, Body)] + blocks, caught);
    match r {
      case Again =>
      case Astray(depth, ex) =>
        AstrayOutward(Block(filter, Body), blocks, depth, ex);
      case Ended(ending) =>
        if ending.Raised? {
          var n := FilterNumber(filter, ending.ex);
          if 0 < n <= |s.handlers| {
            var (q, f) := Actual(s.handlers[n - 1], [Block(filter, Handling)] + blocks, Some(ending.ex));
            assert IsMeaning(s.handlers[n - 1], [Block(filter, Handling)] + blocks, Some(ending.ex));
            if q.Astray? { AstrayOutward(Block(filter, Handling), blocks, q.depth, q.ex); }
          }
        }
    }
  }

  lemma TryFinallyIsMeaning(s: Stmt, blocks: seq<Block>, caught: Option<Exc>)
    requires s.TryFinally? && IsMeaning(s.body, [Block(Finally, Body)] + blocks, caught)
    requires IsMeaning(s.handler, [Block(Finally, Handling)] + blocks, None)
    requires IsMeaning(s.handler, [Block(Finally, Finishing)] + blocks, None)
    ensures IsMeaning(s, blocks, caught)
  {
    hide IsAstray, IsClear, Sent, Exposed, FilterNumber;
    var (r, e) := Actual(s.body, [Block(Finally, Body)] + blocks, caught);
    match r {
      case Again =>
      case Astray(depth, ex) =>
        AstrayOutward(Block(Finally, Body), blocks, depth, ex);
      case Ended(ending) =>
        var phase := if ending.Raised? then Handling else Finishing;
        var (q, f) := Actual(s.handler, [Block(Finally, phase)] + blocks, None);
        if q.Astray? { AstrayOutward(Block(Finally, phase), blocks, q.depth, q.ex); }
        if ending.Raised? { SentMeaning(blocks, ending.ex); }
    }
  }

  // ---------------------------------------------------------------------------------------------
  // Which runs are safe

  /** No protected block inside. */
  predicate IsFlat(s: Stmt) {
    match s
    case Seq(first, second) => IsFlat(first) && IsFlat(second)
    case Call(body) => IsFlat(body)
    case TryCatch(_, _, _) => false
    case TryFinally(_, _) => false
    case _ => true
  }

  predicate NeverThrows(s: Stmt) {
    match s
    case Seq(first, second) => NeverThrows(first) && NeverThrows(second)
    case Call(body) => NeverThrows(body)
    case Work(_) => true
    case _ => false
  }

  /** Handlers open no protected blocks, and finally blocks do not throw. */
  predicate IsPlain(s: Stmt) {
    match s
    case Seq(first, second) => IsPlain(first) && IsPlain(second)
    case Call(body) => IsPlain(body)
    case TryCatch(body, types, handlers) => IsPlain(body) && forall h :: h in handlers ==> IsFlat(h)
    case TryFinally(body, handler) => IsPlain(body) && NeverThrows(handler)
    case _ => true
  }

  /** A condition on the program text alone: no scan can ever meet a running handler. */
  lemma {:induction false} PlainIsSafe(s: Stmt, blocks: seq<Block>, caught: Option<Exc>)
    requires IsPlain(s) && forall b :: b in blocks ==> b.phase.Body?
    ensures IsSafe(s, blocks, caught)
  {
    match s {
      case Seq(first, second) =>
        PlainIsSafe(first, blocks, caught);
        PlainIsSafe(second, blocks, caught);
      case Call(body) => PlainIsSafe(body, blocks, None);
      case TryCatch(body, types, handlers) =>
        PlainIsSafe(body, [Block(Catches(types), Body)] + blocks, caught);
        forall i, ex | 0 <= i < |handlers| ensures IsSafe(handlers[i], [Block(Catches(types), Handling)] + blocks, Some(ex)) {
          FlatIsSafe(handlers[i], Block(Catches(types), Handling), blocks, Some(ex));
        }
      case TryFinally(body, handler) =>
        PlainIsSafe(body, [Block(Finally, Body)] + blocks, caught);
        SilentIsSafe(handler, [Block(Finally, Handling)] + blocks);
        SilentIsSafe(handler, [Block(Finally, Finishing)] + blocks);
      case _ =>
    }
  }

  lemma {:induction false} FlatIsSafe(s: Stmt, b: Block, blocks: seq<Block>, caught: Option<Exc>)
    requires IsFlat(s) && b.phase.Handling? && forall b :: b in blocks ==> b.phase.Body?
    ensures IsSafe(s, [b] + blocks, caught)
  {
    assert Exposed([b] + blocks) == blocks;
    match s {
      case Seq(first, second) =>
        FlatIsSafe(first, b, blocks, caught);
        FlatIsSafe(second, b, blocks, caught);
      case Call(body) => FlatIsSafe(body, b, blocks, None);
      case _ =>
    }
  }

  lemma {:induction false} SilentIsSafe(s: Stmt, blocks: seq<Block>)
    requires NeverThrows(s)
    ensures IsSafe(s, blocks, None)
  {
    match s {
      case Seq(first, second) =>
        SilentIsSafe(first, blocks);
        SilentIsSafe(second, blocks);
      case Call(body) => SilentIsSafe(body, blocks);
      case _ =>
    }
  }

  /** A catch handler that throws through a finally block of its own enters itself again exactly if its clause accepts
      the new exception; otherwise the run has its meaning. */
  lemma ThrowThroughFinally(t: string, e: Exc, f: Exc)
    requires t in e.types
    ensures
      var s := TryCatch(Throw(e), [t], [TryFinally(Throw(f), Work(0))]);
      var events := [EnteredCatch(1, e), EnteredFinally, Did(0)];
      && Eval(s, None) == (Raised(f), events)
      && (IsSafe(s, [], None) <==> t !in f.types)
      && Actual(s, [], None) == if t in f.types then (Again, events + [EnteredCatch(1, f)]) else (Ended(Raised(f)), events)
  {
    hide FirstMatch, Sent;
    var inner, filter := TryFinally(Throw(f), Work(0)), Catches([t]);
    var waiting, active := [Block(filter, Body)] + [], [Block(filter, Handling)] + [];
    assert active == [Block(filter, Handling)];
    SingleClause(t, e);
    SingleClause(t, f);
    assert Actual(Throw(e), waiting, None) == (Ended(Raised(e)), []) by { Unhindered(waiting, e); }
    assert Actual(inner, active, Some(e)) == (Sent(active, f), [EnteredFinally, Did(0)]) by {
      Unhindered([Block(Finally, Body)] + active, f);
      assert [] + [EnteredFinally] + [Did(0)] == [EnteredFinally, Did(0)];
    }
    assert Eval(inner, Some(e)) == (Raised(f), [EnteredFinally, Did(0)]) by {
      assert [] + [EnteredFinally] + [Did(0)] == [EnteredFinally, Did(0)];
    }
    assert Sent(active, f) == if t in f.types then Astray(0, f) else Ended(Raised(f)) by { SentOne(Block(filter, Handling), f); }
    assert [] + [EnteredCatch(1, e)] + [EnteredFinally, Did(0)] == [EnteredCatch(1, e), EnteredFinally, Did(0)];
    ActualIsMeaning(TryCatch(Throw(e), [t], [inner]), [], None);
  }

  lemma SingleClause(t: string, ex: Exc)
    ensures FilterNumber(Catches([t]), ex) == if t in ex.types then 1 else 0
  {
    assert FirstMatch([t], ex, 1) == 0;
  }

  /** An exception thrown in a protected body whose block accepts it, or directly in a handler, is sent rightly. */
  lemma Unhindered(blocks: seq<Block>, ex: Exc)
    requires blocks != [] && (if blocks[0].phase.Body? then Accepts(blocks[0], ex) || |blocks| == 1 else blocks[0].phase.Handling? && |blocks| == 1)
    ensures Sent(Exposed(blocks), ex) == Ended(Raised(ex))
  {
    ReachedIsProper(Exposed(blocks), ex);
  }

  lemma SentOne(b: Block, ex: Exc)
    requires !b.phase.Body?
    ensures Sent([b], ex) == if Accepts(b, ex) then Astray(0, ex) else Ended(Raised(ex))
  {
    assert [b][1..] == [];
  }

  /** A finally block that was reached normally and throws runs twice; one that replaces an exception does not. */
  lemma {:induction false} ThrowingFinally(e: Exc, f: Exc)
    ensures Eval(TryFinally(Work(0), Throw(f)), None) == (Raised(f), [Did(0), EnteredFinally])
    ensures Actual(TryFinally(Work(0), Throw(f)), [], None) == (Again, [Did(0), EnteredFinally, EnteredFinally])
    ensures Actual(TryFinally(Throw(e), Throw(f)), [], None) == (Ended(Raised(f)), [EnteredFinally])
  {
    var finishing, handling := [Block(Finally, Finishing)] + [], [Block(Finally, Handling)] + [];
    assert finishing == [Block(Finally, Finishing)];
    SentOne(Block(Finally, Finishing), f);
    Unhindered(handling, f);
    Unhindered([Block(Finally, Body)] + [], e);
    assert Actual(Throw(f), finishing, None) == (Astray(0, f), []);
    assert Actual(Throw(f), handling, None) == (Ended(Raised(f)), []);
    assert [Did(0)] + [EnteredFinally] + [] == [Did(0), EnteredFinally];
    assert [Did(0), EnteredFinally] + [EnteredFinally] == [Did(0), EnteredFinally, EnteredFinally];
    assert [] + [EnteredFinally] + [] == [EnteredFinally];
  }
}
