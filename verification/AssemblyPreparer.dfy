/** The core decoding sequence: the worklist that visits every reachable instruction once and
    collects its emitter (IL2C.Core/AssemblyPreparer.cs). */
module AssemblyPreparer {
  import opened Wrappers
  import opened Names
  import opened IL
  import opened DecodeContexts
  import opened ILConverters

  datatype PreparedMethod<V> = PreparedMethod(
    stacks: seq<StackVariable>, labelNames: map<nat, string>, emitters: map<nat, Emitter<V>>)

  datatype PrepareError = Decode(error: DecodeError) | DuplicateKey

  /** What decoding found at every offset: the stack variables before and after the instruction. */
  datatype Decoding = Decoding(table: Table, before: map<nat, seq<StackVariable>>, after: map<nat, seq<StackVariable>>)

  /** The instruction at o was decoded with these variables and got this emitter. */
  ghost predicate DecodedAt<V>(m: Method<V>, table: Table, o: nat, before: seq<StackVariable>, after: seq<StackVariable>,
                               emitter: Emitter<V>)
  {
    && o in m.code
    && InTable(table, before) && InTable(table, after)
    && TypesAfter(m, m.code[o].instruction, Types(before)) == Some(Types(after))
    && emitter == Emission(m, m.code[o].instruction, before, after)
  }

  ghost predicate IsBranchTarget<V>(m: Method<V>, decoded: set<nat>, t: nat) {
    exists o :: o in decoded && o in m.code && t in m.code[o].instruction.Targets()
  }

  /** A complete result of decoding: exactly the reachable offsets are decoded, all branch targets are
      labelled, and every instruction is translated over the variables found for it. */
  ghost predicate IsDecoding<V>(m: Method<V>, p: PreparedMethod<V>, d: Decoding) {
    && WellFormedTable(d.table) && p.stacks == Flatten(d.table)
    && p.emitters.Keys == d.before.Keys == d.after.Keys
    && (forall o :: o in p.emitters ==> DecodedAt(m, d.table, o, d.before[o], d.after[o], p.emitters[o]))
    && (forall o :: o in p.emitters <==> m.Reachable(o))
    && (forall t :: t in p.labelNames <==> IsBranchTarget(m, p.emitters.Keys, t))
    && (forall t :: t in p.labelNames ==> p.labelNames[t] == LabelName(t))
  }

  /** Every arrival brings the types the typing records. */
  ghost predicate DecodedAs(typing: map<nat, seq<Tag>>, d: Decoding) {
    forall o :: o in d.before ==> o in typing && Types(d.before[o]) == typing[o]
  }

  function Flatten(t: Table): (vars: seq<StackVariable>) {
    if t == [] then [] else t[0] + Flatten(t[1..])
  }

  // ---------------------------------------------------------------------------------------------
  // The loop invariant, over plain values

  datatype View = View(table: Table, snapshots: map<int, StackSnapshot>, queue: seq<StackSnapshot>, labels: map<nat, string>)

  ghost predicate Queued(v: View, o: int) {
    exists s :: s in v.queue && s.offset == o
  }

  /** Decoded, waiting in the queue, or about to be decoded on the current path. */
  ghost predicate Known<V>(v: View, em: map<nat, Emitter<V>>, cur: int, o: nat) {
    o in em || Queued(v, o) || o == cur
  }

  ghost predicate Inv<V>(m: Method<V>, v: View, em: map<nat, Emitter<V>>, after: map<nat, seq<StackVariable>>, cur: int) {
    && (forall o :: o in v.snapshots <==> o >= 0 && o in em)
    && after.Keys == em.Keys
    && (forall o :: o in em ==> DecodedAt(m, v.table, o, v.snapshots[o].stackInformations, after[o], em[o]))
    && (forall o :: o in em ==> m.Reachable(o))
    && (forall s :: s in v.queue ==> s.offset >= 0 && m.Reachable(s.offset))
    && (cur >= 0 ==> m.Reachable(cur))
    && (forall o :: m.IsRoot(o) ==> Known(v, em, cur, o))
    && (forall o, s :: o in em && m.IsSuccessor(o, s) ==> Known(v, em, cur, s))
    && (forall t :: t in v.labels <==> IsBranchTarget(m, em.Keys, t))
  }

  ghost predicate Typed<V>(m: Method<V>, typing: map<nat, seq<Tag>>, v: View, cur: int, current: seq<StackVariable>) {
    IsTyping(m, typing) ==>
      && (forall o: nat :: o in v.snapshots ==> o in typing && Types(v.snapshots[o].stackInformations) == typing[o])
      && (forall s :: s in v.queue ==> s.offset in typing && Types(s.stackInformations) == typing[s.offset])
      && (cur >= 0 ==> cur in typing && Types(current) == typing[cur])
  }

  /** One decoded instruction, as a change of view. */
  ghost predicate Advanced<V>(m: Method<V>, v: View, w: View, o: nat, before: seq<StackVariable>, after: seq<StackVariable>) {
    && o in m.code
    && Extends(v.table, w.table)
    && w.snapshots == v.snapshots[o := StackSnapshot(o, before)]
    && var i := m.code[o].instruction;
       if i.Targets() == [] then w.queue == v.queue && w.labels == v.labels
       else w.queue == v.queue + [StackSnapshot(i.target, after)] && w.labels == v.labels[i.target := LabelName(i.target)]
  }

  function NextOf<V>(m: Method<V>, o: nat): int
    requires o in m.code
  {
    if m.code[o].instruction.IsEndOfPath() then -1 else o + m.code[o].size
  }

  lemma AdvanceDecoded<V>(m: Method<V>, v: View, w: View, em: map<nat, Emitter<V>>, after: map<nat, seq<StackVariable>>,
                          o: nat, x: seq<StackVariable>, y: seq<StackVariable>, e: Emitter<V>)
    requires Inv(m, v, em, after, o) && o !in em && Advanced(m, v, w, o, x, y)
    requires DecodedAt(m, w.table, o, x, y, e)
    ensures forall p :: p in em[o := e] ==>
              DecodedAt(m, w.table, p, w.snapshots[p].stackInformations, after[o := y][p], em[o := e][p])
  {
    forall p | p in em
      ensures DecodedAt(m, w.table, p, w.snapshots[p].stackInformations, after[o := y][p], em[p])
    {
      InTableExtends(v.table, w.table, v.snapshots[p].stackInformations);
      InTableExtends(v.table, w.table, after[p]);
    }
  }

  lemma AdvanceLabels<V>(m: Method<V>, v: View, w: View, em: map<nat, Emitter<V>>, o: nat,
                         x: seq<StackVariable>, y: seq<StackVariable>, e: Emitter<V>)
    requires Advanced(m, v, w, o, x, y)
    requires forall t :: t in v.labels <==> IsBranchTarget(m, em.Keys, t)
    ensures forall t :: t in w.labels <==> IsBranchTarget(m, em[o := e].Keys, t)
  {
    var i := m.code[o].instruction;
    forall t ensures t in w.labels <==> IsBranchTarget(m, em[o := e].Keys, t) {
      if IsBranchTarget(m, em.Keys, t) {
        var p :| p in em.Keys && p in m.code && t in m.code[p].instruction.Targets();
        assert p in em[o := e].Keys;
      }
      if t in i.Targets() { assert o in em[o := e].Keys; }
    }
  }

  lemma AdvanceKnown<V>(m: Method<V>, v: View, w: View, em: map<nat, Emitter<V>>, o: nat,
                        x: seq<StackVariable>, y: seq<StackVariable>, e: Emitter<V>, p: nat)
    requires Advanced(m, v, w, o, x, y)
    requires Known(v, em, o, p) || m.IsSuccessor(o, p)
    ensures Known(w, em[o := e], NextOf(m, o), p)
  {
    var i := m.code[o].instruction;
    if Queued(v, p) {
      var s :| s in v.queue && s.offset == p;
      assert s in w.queue;
    } else if m.IsSuccessor(o, p) && p in i.Targets() {
      assert StackSnapshot(i.target, y) in w.queue;
    }
  }

  lemma Advance<V>(m: Method<V>, v: View, w: View, em: map<nat, Emitter<V>>, after: map<nat, seq<StackVariable>>,
                   o: nat, x: seq<StackVariable>, y: seq<StackVariable>, e: Emitter<V>)
    requires Inv(m, v, em, after, o) && o !in em && Advanced(m, v, w, o, x, y)
    requires DecodedAt(m, w.table, o, x, y, e)
    ensures Inv(m, w, em[o := e], after[o := y], NextOf(m, o))
  {
    hide DecodedAt;
    hide m.Reachable;
    AdvanceDecoded(m, v, w, em, after, o, x, y, e);
    AdvanceLabels(m, v, w, em, o, x, y, e);
    var i := m.code[o].instruction;
    forall s | s in w.queue ensures s.offset >= 0 && m.Reachable(s.offset) {
      if s !in v.queue { assert m.IsSuccessor(o, i.target); SuccessorReachable(m, o, i.target); }
    }
    if NextOf(m, o) >= 0 { assert m.IsSuccessor(o, NextOf(m, o)); SuccessorReachable(m, o, NextOf(m, o)); }
    forall p | m.IsRoot(p) ensures Known(w, em[o := e], NextOf(m, o), p) {
      AdvanceKnown(m, v, w, em, o, x, y, e, p);
    }
    forall q, p | q in em[o := e] && m.IsSuccessor(q, p) ensures Known(w, em[o := e], NextOf(m, o), p) {
      AdvanceKnown(m, v, w, em, o, x, y, e, p);
    }
  }

  lemma AdvanceTyped<V>(m: Method<V>, typing: map<nat, seq<Tag>>, v: View, w: View, o: nat,
                        x: seq<StackVariable>, y: seq<StackVariable>)
    requires Typed(m, typing, v, o, x) && Advanced(m, v, w, o, x, y)
    requires TypesAfter(m, m.code[o].instruction, Types(x)) == Some(Types(y))
    ensures Typed(m, typing, w, NextOf(m, o), y)
    ensures NextOf(m, o) < 0 ==> Typed(m, typing, w, -1, [])
  {
    if IsTyping(m, typing) {
      var i := m.code[o].instruction;
      if i.Targets() != [] { assert m.IsSuccessor(o, i.target); }
      if NextOf(m, o) >= 0 { assert m.IsSuccessor(o, NextOf(m, o)); }
    }
  }

  // ---------------------------------------------------------------------------------------------
  // The decoding loops

  ghost function ViewOf<V>(ctx: DecodeContext<V>): View
    reads ctx
  {
    View(ctx.Variables(), ctx.stackSnapshotsAtOffset, ctx.pathRemains, ctx.labelNames)
  }

  ghost function Collected<V>(bodies: seq<(nat, Emitter<V>)>): map<nat, Emitter<V>> {
    if bodies == [] then map[]
    else Collected(bodies[..|bodies| - 1])[bodies[|bodies| - 1].0 := bodies[|bodies| - 1].1]
  }

  lemma {:induction false} CollectedAppend<V>(bodies: seq<(nat, Emitter<V>)>, o: nat, e: Emitter<V>)
    ensures Collected(bodies + [(o, e)]) == Collected(bodies)[o := e]
  {
    assert (bodies + [(o, e)])[..|bodies|] == bodies;
  }

  ghost predicate DistinctKeys<V>(bodies: seq<(nat, Emitter<V>)>) {
    forall i, j :: 0 <= i < j < |bodies| ==> bodies[i].0 != bodies[j].0
  }

  lemma {:induction false} CollectedKeys<V>(bodies: seq<(nat, Emitter<V>)>, o: nat)
    ensures o in Collected(bodies) <==> exists i :: 0 <= i < |bodies| && bodies[i].0 == o
  {
    if bodies != [] {
      var rest := bodies[..|bodies| - 1];
      CollectedKeys(rest, o);
      assert forall i :: 0 <= i < |rest| ==> rest[i] == bodies[i];
      if o in Collected(rest) {
        var i :| 0 <= i < |rest| && rest[i].0 == o;
        assert bodies[i].0 == o;
      } else if o == bodies[|bodies| - 1].0 {
        assert bodies[|bodies| - 1].0 == o;
      }
    }
  }

  /** Offsets that are still to be decoded; each decoding step removes one. */
  ghost function Undecoded<V>(ctx: DecodeContext<V>): set<nat>
    reads ctx
  {
    set o | o in ctx.body.code && o !in ctx.stackSnapshotsAtOffset
  }

  datatype PathEnd = EndOfPath | DecodeFailed(error: DecodeError)

  /** Decodes one path up to an instruction that ends it or to an already decoded offset. */
  method DecodeAndEnumerateILBodies<V(==)>(ctx: DecodeContext<V>, bodies0: seq<(nat, Emitter<V>)>,
      ghost after0: map<nat, seq<StackVariable>>, ghost typing: map<nat, seq<Tag>>)
    returns (r: PathEnd, bodies: seq<(nat, Emitter<V>)>, ghost after: map<nat, seq<StackVariable>>)
    requires ctx.Valid() && ctx.stackPointer >= 0 && ctx.nextOffset >= 0 && DistinctKeys(bodies0)
    requires Inv(ctx.body, ViewOf(ctx), Collected(bodies0), after0, ctx.nextOffset)
    requires Typed(ctx.body, typing, ViewOf(ctx), ctx.nextOffset, ctx.Current())
    modifies ctx
    ensures ctx.Valid() && DistinctKeys(bodies)
    ensures IsTyping(ctx.body, typing) ==> r.EndOfPath?
    ensures r.EndOfPath? ==>
              && Inv(ctx.body, ViewOf(ctx), Collected(bodies), after, -1)
              && Typed(ctx.body, typing, ViewOf(ctx), -1, [])
    ensures Undecoded(ctx) < old(Undecoded(ctx)) ||
            (Undecoded(ctx) == old(Undecoded(ctx)) && ctx.pathRemains == old(ctx.pathRemains))
  {
    bodies, after := bodies0, after0;
    while true
      invariant ctx.Valid() && ctx.stackPointer >= 0 && ctx.nextOffset >= 0 && DistinctKeys(bodies)
      invariant Inv(ctx.body, ViewOf(ctx), Collected(bodies), after, ctx.nextOffset)
      invariant Typed(ctx.body, typing, ViewOf(ctx), ctx.nextOffset, ctx.Current())
      invariant Undecoded(ctx) < old(Undecoded(ctx)) ||
                (Undecoded(ctx) == old(Undecoded(ctx)) && ctx.pathRemains == old(ctx.pathRemains))
      decreases Undecoded(ctx)
    {
      var more;
      r, bodies, after, more := DecodeOne(ctx, bodies, after, typing);
      if !more { return; }
    }
  }

  /** One turn of the decoding loop: MoveNext, then the converter of the current instruction. */
  method DecodeOne<V(==)>(ctx: DecodeContext<V>, bodies0: seq<(nat, Emitter<V>)>,
      ghost after0: map<nat, seq<StackVariable>>, ghost typing: map<nat, seq<Tag>>)
    returns (r: PathEnd, bodies: seq<(nat, Emitter<V>)>, ghost after: map<nat, seq<StackVariable>>, more: bool)
    requires ctx.Valid() && ctx.stackPointer >= 0 && ctx.nextOffset >= 0 && DistinctKeys(bodies0)
    requires Inv(ctx.body, ViewOf(ctx), Collected(bodies0), after0, ctx.nextOffset)
    requires Typed(ctx.body, typing, ViewOf(ctx), ctx.nextOffset, ctx.Current())
    modifies ctx
    ensures ctx.Valid() && DistinctKeys(bodies)
    ensures IsTyping(ctx.body, typing) ==> r.EndOfPath?
    ensures more ==>
              && ctx.stackPointer >= 0 && ctx.nextOffset >= 0
              && Inv(ctx.body, ViewOf(ctx), Collected(bodies), after, ctx.nextOffset)
              && Typed(ctx.body, typing, ViewOf(ctx), ctx.nextOffset, ctx.Current())
              && Undecoded(ctx) < old(Undecoded(ctx))
    ensures !more && r.EndOfPath? ==>
              && Inv(ctx.body, ViewOf(ctx), Collected(bodies), after, -1)
              && Typed(ctx.body, typing, ViewOf(ctx), -1, [])
    ensures Undecoded(ctx) < old(Undecoded(ctx)) ||
            (Undecoded(ctx) == old(Undecoded(ctx)) && ctx.pathRemains == old(ctx.pathRemains))
  {
    hide Inv, Typed, Converted, IsTyping, DistinctKeys, Collected;
    bodies, after, more := bodies0, after0, false;
    r := EndOfPath;
    ghost var m, v := ctx.body, ViewOf(ctx);
    ghost var o, x := ctx.nextOffset, ctx.Current();
    Arrival(m, typing, v, Collected(bodies0), after0, o, x);
    var move := ctx.MoveNext();
    if move.AlreadyDecoded? { return; }
    if move.EndOfMethodBody? {
      r := DecodeFailed(EndOfBody);
      return;
    }
    var instruction := move.code.instruction;
    var offset := ctx.currentOffset;
    var emitter := Prepare(ctx, instruction);
    assert o in old(Undecoded(ctx)) && o !in Undecoded(ctx) && Undecoded(ctx) <= old(Undecoded(ctx));
    ghost var y, w := ctx.Current(), ViewOf(ctx);
    if emitter.Failure? {
      r := DecodeFailed(emitter.error);
      return;
    }
    bodies := bodies + [(offset, emitter.value)];
    after := after[offset := y];
    Proceed(m, typing, v, w, bodies0, after0, o, x, y, emitter.value);
    more := !instruction.IsEndOfPath();
  }

  /** On arrival, a typing rules out every decoding error, and an offset seen before needs no work. */
  lemma Arrival<V>(m: Method<V>, typing: map<nat, seq<Tag>>, v: View, em: map<nat, Emitter<V>>,
                   after: map<nat, seq<StackVariable>>, o: nat, x: seq<StackVariable>)
    requires Inv(m, v, em, after, o) && Typed(m, typing, v, o, x)
    ensures o in v.snapshots ==> Inv(m, v, em, after, -1)
    ensures Typed(m, typing, v, -1, [])
    ensures IsTyping(m, typing) ==>
              && o in m.code
              && TypesAfter(m, m.code[o].instruction, Types(x)).Some?
              && (m.code[o].instruction.Targets() != [] ==> m.code[o].instruction.target in m.code)
  {
    hide DecodedAt, Emission, TypesAfter;
    hide m.Reachable;
    if IsTyping(m, typing) && m.code[o].instruction.Targets() != [] {
      assert m.IsSuccessor(o, m.code[o].instruction.target);
    }
  }

  lemma {:induction false} Proceed<V>(m: Method<V>, typing: map<nat, seq<Tag>>, v: View, w: View, bodies: seq<(nat, Emitter<V>)>,
                   after: map<nat, seq<StackVariable>>, o: nat, x: seq<StackVariable>, y: seq<StackVariable>, e: Emitter<V>)
    requires Inv(m, v, Collected(bodies), after, o) && Typed(m, typing, v, o, x) && DistinctKeys(bodies)
    requires o !in v.snapshots && Advanced(m, v, w, o, x, y)
    requires InTable(v.table, x) && InTable(w.table, y)
    requires Converted(m, m.code[o].instruction, x, y, Some(e))
    ensures DistinctKeys(bodies + [(o, e)])
    ensures Inv(m, w, Collected(bodies + [(o, e)]), after[o := y], NextOf(m, o))
    ensures Typed(m, typing, w, NextOf(m, o), y)
    ensures NextOf(m, o) < 0 ==> Typed(m, typing, w, -1, [])
  {
    hide Emission, TypesAfter;
    InTableExtends(v.table, w.table, x);
    CollectedAppend(bodies, o, e);
    CollectedKeys(bodies, o);
    Advance(m, v, w, Collected(bodies), after, o, x, y, e);
    AdvanceTyped(m, typing, v, w, o, x, y);
  }

  // ---------------------------------------------------------------------------------------------
  // The whole method body

  /** ToDictionary: throws when a key comes twice. */
  method ToDictionary<V(==)>(bodies: seq<(nat, Emitter<V>)>) returns (r: Result<map<nat, Emitter<V>>, PrepareError>)
    ensures r.Success? <==> DistinctKeys(bodies)
    ensures r.Success? ==> r.value == Collected(bodies)
    ensures r.Failure? ==> r.error == DuplicateKey
  {
    var emitters: map<nat, Emitter<V>> := map[];
    var n := 0;
    while n < |bodies|
      invariant 0 <= n <= |bodies|
      invariant emitters == Collected(bodies[..n]) && DistinctKeys(bodies[..n])
    {
      var (o, e) := bodies[n];
      CollectedKeys(bodies[..n], o);
      assert bodies[..n + 1] == bodies[..n] + [(o, e)];
      if o in emitters {
        ghost var i :| 0 <= i < n && bodies[..n][i].0 == o;
        assert bodies[i].0 == bodies[n].0;
        return Failure(DuplicateKey);
      }
      CollectedAppend(bodies[..n], o, e);
      emitters := emitters[o := e];
      n := n + 1;
    }
    assert bodies[..n] == bodies;
    return Success(emitters);
  }

  /** When no path is left, exactly the reachable offsets have been decoded. */
  lemma Finished<V>(m: Method<V>, v: View, em: map<nat, Emitter<V>>, after: map<nat, seq<StackVariable>>,
                    typing: map<nat, seq<Tag>>) returns (d: Decoding)
    requires Inv(m, v, em, after, -1) && v.queue == [] && WellFormedTable(v.table)
    requires forall t :: t in v.labels ==> v.labels[t] == LabelName(t)
    requires Typed(m, typing, v, -1, [])
    ensures IsDecoding(m, PreparedMethod(Flatten(v.table), v.labels, em), d)
    ensures IsTyping(m, typing) ==> DecodedAs(typing, d)
  {
    hide DecodedAt, IsTyping;
    hide m.Reachable;
    d := Decoding(v.table, map o | o in em :: v.snapshots[o].stackInformations, after);
    var closed := iset o: nat | o in em;
    forall o | m.Reachable(o) ensures o in em {
      ReachableInClosed(m, closed, o);
    }
  }

  lemma Initially<V>(m: Method<V>, typing: map<nat, seq<Tag>>, v: View)
    requires v.snapshots == map[] && v.labels == map[]
    requires |v.queue| == 1 + |m.handlers| && v.queue[0] == StackSnapshot(0, [])
    requires forall i :: 0 <= i < |m.handlers| ==>
               && v.queue[1 + i].offset == m.handlers[i].start
               && Types(v.queue[1 + i].stackInformations) == m.handlers[i].EntryTypes()
    ensures Inv(m, v, Collected<V>([]), map[], -1) && Typed(m, typing, v, -1, [])
    ensures DistinctKeys<V>([])
  {
    forall s | s in v.queue
      ensures s.offset >= 0 && m.Reachable(s.offset)
      ensures IsTyping(m, typing) ==> s.offset in typing && Types(s.stackInformations) == typing[s.offset]
    {
      var i :| 0 <= i < |v.queue| && v.queue[i] == s;
      if i > 0 { assert v.queue[1 + (i - 1)] == s && m.handlers[i - 1] in m.handlers; }
      assert m.IsRoot(s.offset);
      RootReachable(m, s.offset);
    }
    forall o | m.IsRoot(o) ensures Known(v, Collected<V>([]), -1, o) {
      if o == 0 {
        assert v.queue[0] in v.queue;
      } else {
        var i :| 0 <= i < |m.handlers| && m.handlers[i].start == o;
        assert v.queue[1 + i] in v.queue;
      }
    }
  }

  /** What is taken from the front of a queue. */
  lemma QueueTail(before: seq<StackSnapshot>, after: seq<StackSnapshot>)
    requires |after| <= |before| && after == before[|before| - |after|..]
    ensures forall s :: s in after ==> s in before
    ensures forall s :: s in before ==> s in after || s in before[..|before| - |after|]
  {
    var k := |before| - |after|;
    forall s | s in before ensures s in after || s in before[..k] {
      var i :| 0 <= i < |before| && before[i] == s;
      if i >= k { assert after[i - k] == s; } else { assert before[..k][i] == s; }
    }
  }

  lemma Dequeued<V>(m: Method<V>, typing: map<nat, seq<Tag>>, v: View, w: View, em: map<nat, Emitter<V>>,
                    after: map<nat, seq<StackVariable>>, cur: int, current: seq<StackVariable>)
    requires Inv(m, v, em, after, -1) && Typed(m, typing, v, -1, [])
    requires w == v.(queue := w.queue)
    requires forall s :: s in w.queue ==> s in v.queue
    requires forall s :: s in v.queue ==> s in w.queue || s.offset in v.snapshots || s.offset == cur
    requires cur >= 0 ==> StackSnapshot(cur, current) in v.queue
    ensures Inv(m, w, em, after, cur) && Typed(m, typing, w, cur, current)
  {
    hide DecodedAt;
    hide m.Reachable;
    forall o: nat | Known(v, em, -1, o) ensures Known(w, em, cur, o) {
      if Queued(v, o) {
        var s :| s in v.queue && s.offset == o;
        assert s in w.queue || s.offset in v.snapshots || s.offset == cur;
      }
    }
  }

  /** The declared stack variables, depth by depth. */
  method ExtractStacks(holders: seq<StackInformationHolder>) returns (stacks: seq<StackVariable>)
    ensures stacks == Flatten(Rows(holders))
  {
    stacks := [];
    var n := |holders|;
    while n > 0
      invariant 0 <= n <= |holders|
      invariant stacks == Flatten(Rows(holders)[n..])
    {
      n := n - 1;
      assert Rows(holders)[n..][1..] == Rows(holders)[n + 1..];
      stacks := holders[n].typedStackInformation + stacks;
    }
  }

  method PrepareMethodBody<V(==)>(m: Method<V>, ghost typing: map<nat, seq<Tag>>)
    returns (r: Result<PreparedMethod<V>, PrepareError>, ghost d: Decoding)
    ensures r.Success? ==> IsDecoding(m, r.value, d)
    ensures IsTyping(m, typing) ==> r.Success? && DecodedAs(typing, d)
    ensures r != Failure(DuplicateKey)
  {
    hide Inv, Typed, IsTyping, DistinctKeys, Collected, IsDecoding;
    var ctx := new DecodeContext(m);
    var bodies: seq<(nat, Emitter<V>)> := [];
    ghost var after: map<nat, seq<StackVariable>> := map[];
    d := Decoding([], map[], map[]);
    Initially(m, typing, ViewOf(ctx));
    assert DistinctKeys(bodies) by { Initially(m, typing, ViewOf(ctx)); }
    while true
      invariant fresh(ctx) && ctx.body == m && ctx.Valid() && DistinctKeys(bodies)
      invariant Inv(m, ViewOf(ctx), Collected(bodies), after, -1)
      invariant Typed(m, typing, ViewOf(ctx), -1, [])
      decreases Undecoded(ctx), |ctx.pathRemains|
    {
      ghost var v := ViewOf(ctx);
      var found := ctx.TryDequeueNextPath();
      QueueTail(v.queue, ctx.pathRemains);
      Dequeued(m, typing, v, ViewOf(ctx), Collected(bodies), after, if found then ctx.nextOffset else -1,
               if found then ctx.Current() else []);
      if !found { break; }
      var end;
      end, bodies, after := DecodeAndEnumerateILBodies(ctx, bodies, after, typing);
      if end.DecodeFailed? {
        return Failure(Decode(end.error)), d;
      }
    }
    var emitters := ToDictionary(bodies);
    d := Finished(m, ViewOf(ctx), emitters.value, after, typing);
    var stacks := ExtractStacks(ctx.stackList);
    r := Prepared(stacks, ctx.labelNames, emitters);
  }

  function Prepared<V>(stacks: seq<StackVariable>, labelNames: map<nat, string>, emitters: Result<map<nat, Emitter<V>>, PrepareError>)
    : Result<PreparedMethod<V>, PrepareError>
  {
    match emitters
    case Success(e) => Success(PreparedMethod(stacks, labelNames, e))
    case Failure(error) => Failure(error)
  }
}
