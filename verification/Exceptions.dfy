/** Structured exception handling as ECMA-335 section I.12.4.2.5 wants it: what a method with nested
    protected blocks does, and in which order. */
module Exceptions {
  import opened Wrappers

  /** An exception object; types lists its class and all base classes. */
  datatype Exc = Exc(id: nat, types: seq<string>)

  /** The run of a method: straight-line work, calls, throws and protected blocks. */
  datatype Stmt =
    | Work(tag: nat)
    | Seq(first: Stmt, second: Stmt)
    | Call(body: Stmt)
    | Throw(ex: Exc)
    | Rethrow
    | TryCatch(body: Stmt, types: seq<string>, handlers: seq<Stmt>)
    | TryFinally(body: Stmt, handler: Stmt)

  datatype Event = Did(tag: nat) | EnteredCatch(number: int, ex: Exc) | EnteredFinally

  datatype Ending = Done | Raised(ex: Exc)

  /** A frame's filter, generated from its handlers: catch clauses in order, or a finally block. */
  datatype Filter = Catches(types: seq<string>) | Finally

  const FILTER_NOMATCH: int := 0
  const FILTER_FINALLY: int := -1

  function FilterNumber(f: Filter, ex: Exc): int {
    match f
    case Finally => FILTER_FINALLY
    case Catches(types) => FirstMatch(types, ex, 0)
  }

  function FirstMatch(types: seq<string>, ex: Exc, i: nat): (n: nat)
    requires i <= |types|
    ensures n <= |types|
    decreases |types| - i
  {
    if i == |types| then 0 else if types[i] in ex.types then i + 1 else FirstMatch(types, ex, i + 1)
  }

  /** A clause number names the first clause whose type the exception has. */
  lemma {:induction false} FirstMatchMeaning(types: seq<string>, ex: Exc, i: nat)
    requires i <= |types|
    ensures
      var n := FirstMatch(types, ex, i);
      if n == 0 then forall j :: i <= j < |types| ==> types[j] !in ex.types
      else i < n && types[n - 1] in ex.types && forall j :: i <= j < n - 1 ==> types[j] !in ex.types
    decreases |types| - i
  {
    if i < |types| && types[i] !in ex.types { FirstMatchMeaning(types, ex, i + 1); }
  }

  /** The meaning of a run; caught is the exception a rethrow raises again. */
  function Eval(s: Stmt, caught: Option<Exc>): (Ending, seq<Event>) {
    match s
    case Work(tag) => (Done, [Did(tag)])
    case Seq(first, second) =>
      var (r, e) := Eval(first, caught);
      if r.Raised? then (r, e) else
      var (q, f) := Eval(second, caught);
      (q, e + f)
    case Call(body) => Eval(body, None)
    case Throw(ex) => (Raised(ex), [])
    case Rethrow => (if caught.Some? then Raised(caught.value) else Done, [])
    case TryCatch(body, types, handlers) =>
      var (r, e) := Eval(body, caught);
      if r.Done? then (r, e) else
      var n := FilterNumber(Catches(types), r.ex);
      if 0 < n <= |handlers| then
        var (q, f) := Eval(handlers[n - 1], Some(r.ex));
        (q, e + [EnteredCatch(n, r.ex)] + f)
      else (r, e)
    case TryFinally(body, handler) =>
      var (r, e) := Eval(body, caught);
      var (q, f) := Eval(handler, None);
      (if q.Raised? then q else r, e + [EnteredFinally] + f)
  }

  /** What CIL allows: one handler for each clause, and a rethrow only in a catch handler. */
  predicate WellFormed(s: Stmt, inCatch: bool) {
    match s
    case Work(_) => true
    case Seq(first, second) => WellFormed(first, inCatch) && WellFormed(second, inCatch)
    case Call(body) => WellFormed(body, false)
    case Throw(_) => true
    case Rethrow => inCatch
    case TryCatch(body, types, handlers) =>
      |handlers| == |types| && WellFormed(body, inCatch) && forall h :: h in handlers ==> WellFormed(h, true)
    case TryFinally(body, handler) => WellFormed(body, inCatch) && WellFormed(handler, false)
  }

  // ---------------------------------------------------------------------------------------------
  // Unwinding order

  /** One protected block around a throw. */
  datatype Layer = CatchLayer(types: seq<string>, handlers: seq<Stmt>) | FinallyLayer(handler: Stmt)

  function Wrap(l: Layer, s: Stmt): Stmt {
    match l
    case CatchLayer(types, handlers) => TryCatch(s, types, handlers)
    case FinallyLayer(handler) => TryFinally(s, handler)
  }

  /** A statement inside nested protected blocks, innermost layer first. */
  function Nest(layers: seq<Layer>, s: Stmt): Stmt {
    if layers == [] then s else Wrap(layers[|layers| - 1], Nest(layers[..|layers| - 1], s))
  }

  predicate Handles(l: Layer, ex: Exc) {
    l.CatchLayer? && 0 < FilterNumber(Catches(l.types), ex) <= |l.handlers|
  }

  function Catcher(layers: seq<Layer>, ex: Exc): (n: nat)
    ensures n <= |layers|
    ensures n < |layers| ==> Handles(layers[n], ex)
    ensures forall i :: 0 <= i < n ==> !Handles(layers[i], ex)
  {
    if layers == [] then 0 else if Handles(layers[0], ex) then 0 else 1 + Catcher(layers[1..], ex)
  }

  predicate Completes(layers: seq<Layer>) {
    forall i :: 0 <= i < |layers| && layers[i].FinallyLayer? ==> Eval(layers[i].handler, None).0.Done?
  }

  /** What the finally blocks among the first n layers do, innermost first, each once. */
  function FinallyEvents(layers: seq<Layer>, n: nat): seq<Event>
    requires n <= |layers|
  {
    if n == 0 then [] else
    FinallyEvents(layers, n - 1) +
    (if layers[n - 1].FinallyLayer? then [EnteredFinally] + Eval(layers[n - 1].handler, None).1 else [])
  }

  lemma {:induction false} Unwound(layers: seq<Layer>, s: Stmt, caught: Option<Exc>, n: nat)
    requires Eval(s, caught).0.Raised? && Completes(layers) && n <= Catcher(layers, Eval(s, caught).0.ex)
    ensures Eval(Nest(layers[..n], s), caught) == (Eval(s, caught).0, Eval(s, caught).1 + FinallyEvents(layers, n))
  {
    hide Eval, FilterNumber, Handles;
    if n > 0 {
      Unwound(layers, s, caught, n - 1);
      assert layers[..n][..n - 1] == layers[..n - 1];
      var l, inner, e, done := layers[n - 1], Nest(layers[..n - 1], s), Eval(s, caught).1, FinallyEvents(layers, n - 1);
      assert Nest(layers[..n], s) == Wrap(l, inner);
      PassesLayer(l, inner, caught);
      match l {
        case CatchLayer(types, handlers) => assert done + [] == done && (e + done) + [] == e + done;
        case FinallyLayer(handler) =>
          var f := Eval(handler, None).1;
          assert (e + done) + ([EnteredFinally] + f) == e + (done + ([EnteredFinally] + f));
      }
    } else {
      assert Eval(s, caught).1 + [] == Eval(s, caught).1;
    }
  }

  /** A raised exception passes a layer that does not handle it; a finally block runs once on the way. */
  lemma {:induction false} PassesLayer(l: Layer, s: Stmt, caught: Option<Exc>)
    requires Eval(s, caught).0.Raised? && !Handles(l, Eval(s, caught).0.ex)
    requires l.FinallyLayer? ==> Eval(l.handler, None).0.Done?
    ensures Eval(Wrap(l, s), caught) ==
            (Eval(s, caught).0,
             Eval(s, caught).1 + if l.FinallyLayer? then [EnteredFinally] + Eval(l.handler, None).1 else [])
  {
    if l.FinallyLayer? {
      var e, f := Eval(s, caught).1, Eval(l.handler, None).1;
      assert e + [EnteredFinally] + f == e + ([EnteredFinally] + f);
    } else {
      assert Eval(s, caught).1 + [] == Eval(s, caught).1;
    }
  }

  /** A throw runs every finally block inside the nearest matching catch, innermost first and once each, then
      that catch, and nothing else; without a match it runs all finally blocks and stays raised. */
  lemma UnwindingOrder(layers: seq<Layer>, s: Stmt, caught: Option<Exc>)
    requires Eval(s, caught).0.Raised? && Completes(layers)
    ensures
      var (r, e) := Eval(s, caught);
      var n := Catcher(layers, r.ex);
      if n == |layers| then Eval(Nest(layers, s), caught) == (r, e + FinallyEvents(layers, n))
      else
        var number := FilterNumber(Catches(layers[n].types), r.ex);
        var (q, f) := Eval(layers[n].handlers[number - 1], Some(r.ex));
        Eval(Nest(layers[..n + 1], s), caught) == (q, e + FinallyEvents(layers, n) + [EnteredCatch(number, r.ex)] + f)
  {
    var n := Catcher(layers, Eval(s, caught).0.ex);
    Unwound(layers, s, caught, n);
    if n == |layers| {
      assert layers[..n] == layers;
    } else {
      assert layers[..n + 1][..n] == layers[..n];
    }
  }
}
