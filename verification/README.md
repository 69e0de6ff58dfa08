# IL2C in Dafny: models and proofs

IL2C translates .NET assemblies (CIL) to C and ships the small C runtime that the generated code needs. This
project models the parts of both where the difficulty lies and proves what they are for. It has no dependencies;
`dafny verify dfyconfig.toml` checks all of it.

## What is modelled

**Translation of method bodies.** `DecodeContext` interprets the IL evaluation stack abstractly: at every depth it
keeps one C variable for each type that has been seen there. A worklist decodes all paths from offset 0 and from
the handlers; the converters emit C statements; the writer lays them out as one labelled group per offset.
`IL` gives the instructions a meaning as a stack machine: arithmetic has the operand and result types of table III.1.5 of
ECMA-335, the operators on values are uninterpreted. `CLanguage` gives the emitted expressions C's own meaning by operand
conversions, casts and the call of fmod, and the emitted function one in which reading an unassigned variable, assigning another type, jumping to a missing label and running
off the end are undefined. The main result (`TranslationCorrectness.TranslationPreservesMeaning`) says that for
every method with a type-exact stack typing, operands of the standard's types, no dead code and no exception instructions,
both sides return the same
values on the same arguments, the IL side never gets stuck and the C side is never undefined. Decoding itself is
proved for all bodies: it terminates, and when it succeeds it has decoded exactly the reachable offsets, once each,
with exactly the labels that are jumped to. The translator's own table of operand types departs from the standard's in two
places: it adds an int32 to an int64, and gives the difference of two managed pointers a pointer type
(`IL.TypingIsStandard` is an equivalence).

**Garbage collector.** The C heap is a map from addresses to headers; using a freed object would be a missing key.
Marks are never cleared: every collection flips the meaning of the mark bit, marks by exclusive-or over type
descriptors, frames and root blocks, and sweeps the linked list in place through a link cell, with finalizers first
and frees last. Marking is exact on every graph, sweeping does exactly what its specification says, collections
compose with allocations, stores, frames, root registration and finalizer switches into a whole-run safety theorem
(`GcRuntime.Runtime.Run`), and shutdown ends within two passes with an empty list. Finalizers run in the collecting
thread and overwrite its temporary reference anchor, so what only the anchor holds is kept by that collection and can be
lost to the next one; `GcAnchor.HeldAfterCollect` is the exact condition and `GcAnchor.LossHappens` an instance.

What the collector follows is compared with what a program can load. `GcLoads` says from the layout of types alone which
places an object, a frame or a static block has and what is read from them; the collector follows exactly these loads,
except for one kind: type information lists only the fields that a type declares itself, so reference fields inherited from
a base class are not followed (`GcInheritance.FollowsAllMeaning` is an equivalence on types, and
`GcInheritance.InheritedFieldIsLost` a heap in which an inherited field is left dangling). Names in the mutator's steps
therefore go through all places but those.

**Exceptions.** `Exceptions` gives structured exception handling a reference meaning and proves the unwinding order on
it. `ExceptionRuntime` models the linked frames, the two-phase filter scan, throw, rethrow and the `il2c_try` macros,
with `longjmp` as a state transfer. `Unwinding` says as a function what the macros do, and proves when that is the
reference meaning. It is not always: the scan asks filters and does not know which handlers are running, so an exception
that leaves a block nested in a handler can land on a frame whose handler is running already, and a finally block that
was reached normally and throws runs twice. The code follows the meaning exactly if no exception meets an accepting
running handler in front of the block it belongs to (`Unwinding.ActualIsMeaning`, `RunProgram`). The chain invariant
carried through every step includes that saved execution frames are suffixes of one another and of the thread's current
chain, so the assertions in both unlink functions hold. A `Stmt` is the unrolled run of a program: conditions and loops
have already been decided.

**Exception handler controller.** The incremental queue-and-stack machine that brackets the emitted code agrees with
the plain filter "handlers that contain this offset", and its callbacks form a bracketed word. This is false in
general: it fails exactly at offsets where a try starts where a block of another handler ends, for instance for two
regions directly behind one another, and `Update` says so as an equivalence.

**Virtual dispatch.** Slot enumeration, vtable layout, vtable contents and the call site's choice of a member name
agree along every inheritance chain, against a direct reading of section II.10.3 of ECMA-335.

**Exact arithmetic and text.** `Fmod` is the bit-level remainder on binary64 patterns with 64-bit wrap-around:
exact for all finite operands, subnormals included. Against section 7.12.10.1 of ISO C99 it is right except for a NaN
divisor of a finite dividend, because the test for it is commented out (`Fmod.MeetsStandard` is an equivalence,
`Fmod.NaNDivisorIsIgnored` an instance). `IntegerText` and `IntegerParser` are the integer printers and the saturating
parser, with their round trip.

**Object layout, casts and boxes.** `ObjectLayout` builds the C structure of every class from its metadata, with the
offsets a C compiler gives it, and the runtime types; `Casts` allocates, casts and boxes in byte-addressed memory, where
vptrs are words of eight bytes.

**Smaller parts.** Delegate lists, root reference blocks, the Polish notation sample, and two lock-free protocols under
arbitrary interleavings (the collection gate and header linking).

Lemmas that Dafny could try to prove by its automatic induction carry `{:induction false}`, so that every proof is the
one that is written down.

## Model

| member | source | states |
|---|---|---|
| Names.SymbolNameInjective | IL2C.Core/Translators/DecodeContext.cs:33-58 | two different (depth, type index) pairs never share a C variable name |
| Names.LabelNameInjective | IL2C.Core/Metadata/MetadataUtilities.cs:12-13 | two different offsets never share a C label, however they are padded |
| DecodeContexts.TypesDetermineVariables | IL2C.Core/Translators/DecodeContext.cs:33-58 | the types on the stack determine the C variables, so every path that arrives with the same types finds the same variables |
| DecodeContexts.StackInformationHolder.GetOrAdd | IL2C.Core/Translators/DecodeContext.cs:33-58 | a type that was seen at this depth gets its old variable back, a new type a new one; nothing is renamed |
| DecodeContexts.DecodeContext.constructor | IL2C.Core/Translators/DecodeContext.cs:118-162 | the queue starts with offset 0 and an empty stack and with every handler start; a catch handler's stack is one variable of the caught type, the others' are empty |
| DecodeContexts.DecodeContext.MoveNext | IL2C.Core/Translators/DecodeContext.cs:165-194 | stops at a decoded offset or behind the code, otherwise records exactly this offset's stack snapshot and advances by the instruction's size |
| DecodeContexts.DecodeContext.PushStack | IL2C.Core/Translators/DecodeContext.cs:236-256 | the stack grows by one variable of the pushed type; all others stay |
| DecodeContexts.DecodeContext.PopStack | IL2C.Core/Translators/DecodeContext.cs:267-283 | fails exactly on the empty stack, otherwise removes and returns the top variable |
| DecodeContexts.DecodeContext.EnqueueNewPath | IL2C.Core/Translators/DecodeContext.cs:291-308 | appends the target with the current stack and records its label, and nothing else |
| DecodeContexts.DecodeContext.TryDequeueNextPath | IL2C.Core/Translators/DecodeContext.cs:333-383 | takes paths from the front of the queue, skipping exactly the arrivals at an offset that was decoded with the very same stack, and selects the variables of the first other one as the current stack; false exactly if all queued arrivals are such repetitions |
| ILConverters.PrepareArithmetic | IL2C.Core/ILConveters/ArithmeticalConverters.cs:20-161 | fails exactly for the operand types no rule covers; otherwise two variables go, one comes, and the emitted expression combines them in order, has the new variable's type and the standard's value |
| IL.TypingIsStandard | IL2C.Core/ILConveters/ArithmeticalConverters.cs:36-161 | the translator refuses what table III.1.5 of ECMA-335 refuses and gives the result type it asks for, if and only if the operands are neither an int32 with an int64 nor two managed pointers to subtract |
| ILConverters.EmittedArithmetic | IL2C.Core/ILConveters/ArithmeticalConverters.cs:36-161 | by C's conversions, casts and fmod each emitted form has the type of the new variable and computes the standard's value, and in the two other cases 64-bit integers and the converted pointer difference |
| IL.StorableMeaning | IL2C.Core/TranslateContext.cs:148-290 | which values a store accepts: everything for its own type, booleans and native integers anywhere, numbers as numbers and booleans, references and managed pointers as managed pointers |
| IL.StepsToSuccessor | IL2C.Core/AssemblyPreparer.cs:30-58 | execution goes only where decoding goes: to the next offset or a branch target |
| ILConverters.Store | IL2C.Core/ILConveters/StlocConverters.cs:12-56 | stloc and ret take the top variable and emit its assignment, converted when the types differ, or an emitter that fails when they are not assignable |
| ILConverters.PushOnly | IL2C.Core/ILConveters/LdcConverters.cs:10-28 | ldc and ldloc push a variable of the operand's type and assign it |
| ILConverters.PrepareDup | IL2C.Core/ILConveters/ILConverters.cs:234-254 | dup leaves the old variable in place, pushes one of the same type and copies |
| ILConverters.Branch | IL2C.Core/ILConveters/BranchConverters.cs:10-38 | br enqueues the target with the current stack and emits the jump to its label |
| ILConverters.ApplyFalse | IL2C.Core/ILConveters/BranchConverters.cs:42-74 | brtrue and brfalse pop, enqueue the target with the stack after the pop, and test against the zero literal of the operand's type |
| ILConverters.ApplyBinary | IL2C.Core/ILConveters/BranchConverters.cs:76-90 | comparing branches pop both operands before enqueueing and compare them in IL order |
| ILConverters.Prepare | IL2C.Core/AssemblyPreparer.cs:30-58 | decoding an instruction fails exactly when it does not apply to the stack types or its target is missing |
| AssemblyPreparer.DecodeOne | IL2C.Core/AssemblyPreparer.cs:30-58 | one turn keeps the decoding invariant (everything decoded or queued is reachable, everything a decoded offset leads to is known) and decodes a new offset |
| AssemblyPreparer.DecodeAndEnumerateILBodies | IL2C.Core/AssemblyPreparer.cs:30-58 | one path ends, never decodes an offset twice, and either decodes something or leaves the queue alone; a typed body never fails |
| AssemblyPreparer.ToDictionary | IL2C.Core/AssemblyPreparer.cs:114-127 | succeeds exactly if no key comes twice, and otherwise fails as a duplicate key |
| AssemblyPreparer.Finished | IL2C.Core/AssemblyPreparer.cs:114-127 | with an empty queue the decoded set is the reachable set and the labels are exactly the targets of decoded branches |
| AssemblyPreparer.PrepareMethodBody | IL2C.Core/AssemblyPreparer.cs:62-151 | the worklist terminates; success is a complete decoding of exactly the reachable offsets, a typed body always succeeds, and no key is ever duplicated |
| FunctionWriter.WriteBody | IL2C.Core/Writers/FunctionWriter.cs:492-523 | writes each offset's label and statements in code order; fails exactly if an offset has no emitter or its emitter fails |
| FunctionWriter.Translate | IL2C.Core/Writers/FunctionWriter.cs:492-523 | a typed body is translated exactly if it has no dead code |
| TranslationCorrectness.LabelFound | IL2C.Core/Writers/FunctionWriter.cs:502-509 | a goto to an offset's label arrives at the start of that offset's group |
| TranslationCorrectness.Step | IL2C.Core/Writers/FunctionWriter.cs:492-523 | every IL step is matched by the lines of its group: the variable recorded for each depth holds the IL stack value at that depth, and the locals agree |
| TranslationCorrectness.LockStep | IL2C.Core/Writers/FunctionWriter.cs:492-523 | any number of IL steps is matched by a bounded number of C steps from the start |
| TranslationCorrectness.TranslationPreservesMeaning | IL2C.Core/Writers/FunctionWriter.cs:492-523 | for all arguments and results, with operands of the standard's types: the IL method returns a value exactly if the emitted function does; IL never gets stuck, C is never undefined |
| TranslationCorrectness.NonstandardDisagrees | IL2C.Core/ILConveters/ArithmeticalConverters.cs:36-161 | with other operands, no C state agrees with the IL machine after the instruction |
| TranslationCorrectness.LeaveFound | IL2C.Core/ILConveters/ILConverters.cs:141-170 | a translated leave names an offset of the function whose label is found at the start of that offset's group |
| TranslationCorrectness.ExceptionStatements | IL2C.Core/ILConveters/ILConverters.cs:105-188 | throw throws the top variable, which is declared with an exception type; rethrow and endfinally emit theirs and take none |
| RefHeaders.TryGetHeader | IL2C.Runtime/src/Core/il2c_gc.c:36-43 | the one masked comparison means "not const and not marked" for both values of the mark index |
| RefHeaders.IsGarbage | IL2C.Runtime/src/Core/il2c_gc.c:344-347 | the sweep's masked comparison means "initialized and not marked" |
| GcMark.Heap.MarkObjRef | IL2C.Runtime/src/Core/il2c_gc.c:47-103 | marks exactly what is reachable from one object, on every graph, and terminates on cycles |
| GcMark.Heap.MarkRecursive | IL2C.Runtime/src/Core/il2c_gc.c:120-196 | the walk over mark targets, nested value types in place, marks exactly what their references reach |
| GcMark.Heap.MarkElements | IL2C.Runtime/src/System/Array.c:107-132 | an array of values marks exactly what its elements' references reach |
| GcMark.Heap.MarkTracking | IL2C.Runtime/src/Core/il2c_gc.c:201-276 | frames and static blocks mark exactly what their references and value descriptors reach |
| GcMark.Heap.MarkThread | IL2C.Runtime/src/System/Threading/Thread.c:260-294 | start and parameter, the temporary anchor and all execution frames are marked from |
| GcMark.MarksCompose | IL2C.Runtime/src/Core/il2c_gc.c:556-564 | marking from some references and then from more is marking from both |
| GcLoads.EdgesAreLoads | IL2C.Runtime/src/Core/il2c_gc.c:47-196 | from every object the collector follows exactly what a program can load: fields of nested values and of boxes behind their header, delegate targets, items and elements of arrays, and a thread's start, parameter, anchor and frames; inherited fields apart |
| GcLoads.BlocksAreLoads | IL2C.Runtime/src/Core/il2c_gc.c:201-276 | from frames and static blocks it follows exactly their references and the references inside their values |
| GcInheritance.FollowsAllMeaning | IL2C.Core/Writers/TypeHelperWriter.cs:234-239 | the collector follows every reference of every object of a type if and only if no base type adds a reference field |
| GcInheritance.DeclaredLoadHeld | IL2C.Runtime/src/Core/il2c_gc.c:120-196 | at every sound moment, everything loaded from a reachable object of such a type is null or reachable |
| GcInheritance.InheritedDangles | IL2C.Core/Writers/TypeHelperWriter.cs:303-309 | what only an inherited field of a reachable object holds is freed by a collection, and the field still reads its address |
| GcInheritance.InheritedFieldIsLost | IL2C.Core/Writers/TypeHelperWriter.cs:303-309 | a consistent heap of three objects in which that happens |
| GcCollect.MarkingIsExact | IL2C.Runtime/src/Core/il2c_gc.c:551-564 | after the flip and step 2 an object that is not const is marked exactly if it is reachable from the roots |
| GcCollect.ParityAfter | IL2C.Runtime/src/Core/il2c_gc.c:544-570 | after a collection every listed header is initialized and carries the current mark index again |
| GcCollect.PendingIsFinalized | IL2C.Runtime/src/Core/il2c_gc.c:344-370 | a collection calls the finalizers of exactly the listed objects that are unreachable and await theirs |
| GcSweep.Step3Sweep | IL2C.Runtime/src/Core/il2c_gc.c:325-436 | the list keeps its order and loses exactly the initialized unmarked headers without a finalizer still to call; each of those is freed once, after all finalizers of the pass; both counters are exact |
| GcSweep.AnchorLeftMeaning | IL2C.Runtime/src/Core/il2c_gc.c:369-370 | the collecting thread's temporary anchor is the same after a sweep exactly if no finalizer that was called writes it; otherwise it is null or an object that a finalizer allocated |
| GcSweep.VisitPending | IL2C.Runtime/src/Core/il2c_gc.c:348-377 | a finalizer that allocates or re-registers keeps the list sound: new objects end up in front and stay |
| GcSweep.DropStep | IL2C.Runtime/src/Core/il2c_gc.c:378-397 | writing through the link cell and pushing on the scheduled list unlinks exactly the visited header |
| GcSweep.FreeScheduled | IL2C.Runtime/src/Core/il2c_gc.c:411-433 | frees exactly the scheduled headers, each once, reading its successor first |
| GcSweep.KeptAndDropped | IL2C.Runtime/src/Core/il2c_gc.c:332-435 | every header of a pass is either counted as remaining or freed |
| GcSweep.LinkHeader | IL2C.Runtime/src/Core/il2c_allocator.c:75-124 | a new header is at an unused address, first in the list, carries the current mark and holds the body it was asked for |
| GcCollect.ConsistentAfter | IL2C.Runtime/src/Core/il2c_gc.c:498-597 | list, marks and reachability invariants hold again after marking and sweeping; what survives is what is reachable or awaits its finalizer |
| GcRuntime.MutationKeepsSafe | IL2C.Runtime/src/Core/il2c_gc.c:120-196 | nothing dangles as long as objects and roots only gain references that are held or new |
| GcAnchor.HeldAfterCollect | IL2C.Runtime/src/Core/il2c_gc.c:369-370 | nothing reachable is freed by a collection, and a reachable object is still reachable after it if and only if no called finalizer writes the thread's anchor or the object is reachable without the anchor |
| GcAnchor.UnreachableStays | IL2C.Runtime/src/Core/il2c_gc.c:498-597 | a collection makes nothing reachable that was not |
| GcAnchor.LostWithAnchor | IL2C.Runtime/src/Core/il2c_allocator.c:232-240 | an object that only the anchor holds survives a collection whose finalizers write the anchor, is unreachable after it, and is freed by the next one |
| GcAnchor.LossHappens | IL2C.Runtime/src/Core/il2c_allocator.c:232-240 | a consistent heap of three objects in which that happens |
| GcStores.StoredSlot | IL2C.Runtime/src/Core/il2c_gc.c:120-196 | a store into raw memory adds at most the stored reference to what the descriptor walk finds |
| GcRuntime.Runtime.Step2Mark | IL2C.Runtime/src/Core/il2c_gc.c:556-564 | static fields, root references and fixed references together are the roots |
| GcRuntime.Runtime.Collect | IL2C.Runtime/src/Core/il2c_gc.c:498-597 | frees nothing reachable, frees or finalizes everything else, changes of the thread nothing but its anchor, and that only if a called finalizer writes it; with quiet finalizers strictly fewer objects await theirs if one was called; an object whose finalizer re-registers it awaits it again |
| GcRuntime.Runtime.Allocate | IL2C.Runtime/src/Core/il2c_allocator.c:126-159 | the new object holds its body, is anchored in the thread and reachable; reachable objects are unchanged |
| GcRuntime.Runtime.LinkFrame | IL2C.Runtime/src/Core/il2c_allocator.c:165-195 | pushes a cleared frame and changes nothing else |
| GcRuntime.Runtime.UnlinkFrame | IL2C.Runtime/src/Core/il2c_allocator.c:198-230 | a returned reference that is held without the anchor, or while no finalizer writes it, survives the collection and the frame: it is in the anchor and reachable |
| GcRuntime.Runtime.RegisterRoot | IL2C.Runtime/src/Core/il2c_allocator.c:268-338 | exactly the registered object becomes a root, of the chosen kind |
| GcRuntime.Runtime.UnregisterRoot | IL2C.Runtime/src/Core/il2c_allocator.c:340-369 | exactly the unregistered object stops being a root |
| GcRuntime.Runtime.RegisterStatic | IL2C.Runtime/src/Core/il2c_allocator.c:245-263 | a static field block starts cleared |
| GcRuntime.Runtime.SuppressFinalize | IL2C.Runtime/src/System/GC.c:9-18 | sets only the finalizer-called bit |
| GcRuntime.Runtime.ReRegisterForFinalize | IL2C.Runtime/src/System/GC.c:20-29 | clears only the finalizer-called bit |
| GcRuntime.Runtime.ResolveHeld | IL2C.Runtime/src/Core/il2c_gc.c:47-103 | whatever a program can name, starting from its thread, static fields and registered references and loading on through any places but inherited fields, is null or reachable |
| GcRuntime.Runtime.HeldIsNamed | IL2C.Runtime/src/Core/il2c_gc.c:556-564 | and conversely: a reference is null or reachable for the collector if and only if the program can name it so |
| GcRuntime.Runtime.StoreIsRead | IL2C.Core/ILConveters/StfldConverters.cs:13-74 | after a store the target's place reads the stored reference, and every other place of every object reads what it read |
| GcRuntime.Runtime.FrameIsRead | IL2C.Core/ILConveters/StlocConverters.cs:12-56 | the same for the places of execution frames |
| GcRuntime.Runtime.StaticIsRead | IL2C.Core/ILConveters/StfldConverters.cs:88-119 | the same for the places of static blocks |
| GcRuntime.NewBodyReads | IL2C.Runtime/src/Core/il2c_allocator.c:71-97 | a new array has exactly the places its length asks for, and every place of a new object reads null |
| GcLoads.ClearedReads | IL2C.Runtime/src/Core/il2c_allocator.c:245-252 | a linked frame or block has exactly the declared places, and all of them read null |
| GcRuntime.Runtime.FirmOperandSurvives | IL2C.Runtime/src/Core/il2c_allocator.c:198-230 | what a program names without going through an anchor is reachable without the anchor, so it outlives every collection |
| GcRuntime.Runtime.Perform | IL2C.Runtime/src/Core/il2c_allocator.c:126-369 | the frames, static fields, root lists, anchor and objects after each step of the mutator; and no step frees anything reachable |
| GcRuntime.Runtime.Run | IL2C.Runtime/src/Core/il2c_allocator.c:126-369 | over every sequence of steps, with any finalizers, the heap is sound between steps, all listed marks agree with the current index, everything loaded from a reachable object (inherited fields apart) is null or reachable, and no step frees anything that was reachable before it |
| GcShutdown.WaitForPendingFinalizers | IL2C.Runtime/src/System/GC.c:36-42 | the loop ends and nothing is pending then; what was reachable without the anchor still is, and what was reachable at all still is unless a finalizer of the first turn writes the anchor |
| GcShutdown.WaitForever | IL2C.Runtime/src/System/GC.c:36-42 | if an unreachable object's finalizer re-registers it, something is pending after any number of turns |
| GcShutdown.FinalPass | IL2C.Runtime/src/Core/il2c_gc.c:635-665 | one unmarked pass drops everything that awaits no finalizer and finalizes the rest once |
| GcShutdown.CollectForFinalShutdown | IL2C.Runtime/src/Core/il2c_gc.c:601-686 | ends within two passes with an empty list; every object is freed exactly once, each finalizer still to be called has been called exactly once before |
| RootReferences.RootList.Register | IL2C.Runtime/src/Core/il2c_allocator.c:268-338 | blocks of three hold each object at most once; registering adds exactly one object, a second time nothing |
| RootReferences.RootList.Unregister | IL2C.Runtime/src/Core/il2c_allocator.c:340-369 | removes exactly the object |
| RootReferences.RootList.UnregisterAll | IL2C.Runtime/src/Core/il2c_allocator.c:371-389 | leaves no block |
| Fmod.Normalize | IL2C.Runtime/src/Platform/fmod.c:29-44 | significand and exponent denote the operand's magnitude exactly, for normal and subnormal operands |
| Fmod.Reduce | IL2C.Runtime/src/Platform/fmod.c:46-61 | the shift-and-subtract loop leaves the exact remainder of the scaled magnitudes |
| Fmod.Scale | IL2C.Runtime/src/Platform/fmod.c:62-74 | renormalising and packing lose no bit, the right shift into subnormals included |
| Fmod.MagnitudeMonotone | IL2C.Runtime/src/Platform/fmod.c:22-26 | comparing bit patterns without sign compares magnitudes |
| Fmod.Remainder | IL2C.Runtime/src/Platform/fmod.c:6-75 | for finite x and finite nonzero y: the double with x's sign and magnitude the remainder of the magnitudes; NaN and infinity cases as coded |
| Fmod.MeetsStandard | IL2C.Runtime/src/Platform/fmod.c:20-21 | agrees with ISO C99 (x - n*y, sign of x, smaller than y; special cases) exactly unless y is NaN and x finite |
| Fmod.NaNDivisorIsIgnored | IL2C.Runtime/src/Platform/fmod.c:20-21 | fmod(1.0, NaN) is 1.0 |
| Fmod.RemainderIsUnique | IL2C.Runtime/src/Platform/fmod.c:64-74 | no other double meets the standard |
| Exceptions.FirstMatchMeaning | IL2C.Core/Writers/FunctionWriter.cs:157-182 | the generated filter names the first clause whose type the exception has, or none |
| Exceptions.UnwindingOrder | IL2C.Runtime/src/Core/il2c_exception.c:61-128 | a throw runs every finally block inside the nearest matching catch once, innermost first, then that catch; without a match all of them |
| ExceptionRuntime.ThreadContext.LinkUnwindTarget | IL2C.Runtime/src/Core/il2c_exception.c:16-29 | the new frame is innermost, inactive and remembers the current execution frame |
| ExceptionRuntime.ThreadContext.UnlinkUnwindTarget | IL2C.Runtime/src/Core/il2c_exception.c:31-41 | unlinks the innermost frame; the assertion holds |
| ExceptionRuntime.ThreadContext.ThrowInternal | IL2C.Runtime/src/Core/il2c_exception.c:61-128 | the scan with its memoized finally frame lands on the first frame whose filter is not NOMATCH, or is unhandled |
| ExceptionRuntime.ThreadContext.Throw | IL2C.Runtime/src/Core/il2c_exception.c:130-145 | skips a running handler that the exception comes from directly, lands on the proper frame unless another running handler in front of it accepts the exception, and cuts execution frames back to the target's |
| ExceptionRuntime.ThreadContext.Rethrow | IL2C.Runtime/src/Core/il2c_exception.c:147-187 | throws the nearest caught exception again, out of its handler or out of a block nested in it, and lands like a throw |
| ExceptionRuntime.ThreadContext.ExecuteTryCatch | IL2C.Runtime/include/il2c.h:422-469 | the try/catch expansion does what the function Unwinding.Actual says: leaves the thread as it was, transfers to the landing frame, or enters its own running handler again |
| ExceptionRuntime.ThreadContext.ExecuteTryFinally | IL2C.Runtime/include/il2c.h:422-469 | the finally block runs on both ways and a pending exception goes on from there, or is replaced by one that the block throws; again as Unwinding.Actual says |
| ExceptionRuntime.ThreadContext.Execute | IL2C.Runtime/include/il2c.h:422-469 | every run of well-formed code has the events and the end of Unwinding.Actual, and keeps the frame chain invariant |
| ExceptionRuntime.ThreadContext.RunProgram | IL2C.Runtime/src/Core/il2c_exception.c:61-187 | a whole program has the events and the end of its meaning if and only if it is safe; otherwise it does what its meaning says up to the point where it enters a running handler again |
| ExceptionRuntime.LandsProperly | IL2C.Runtime/src/Core/il2c_exception.c:70-104 | the scan lands on the frame that should receive the exception, skipping running handlers, if and only if no running handler in front of that frame accepts the exception |
| Unwinding.ActualIsMeaning | IL2C.Runtime/src/Core/il2c_exception.c:61-187 | for every run in every context: the code follows the structured meaning if and only if no exception meets an accepting running handler in front of its proper block; before a wrong landing all events are right |
| Unwinding.PlainIsSafe | IL2C.Runtime/src/Core/il2c_exception.c:130-145 | programs whose handlers open no protected blocks and whose finally blocks do not throw are safe, whatever is thrown |
| Unwinding.ThrowThroughFinally | IL2C.Runtime/src/Core/il2c_exception.c:70-104 | a catch handler that throws through a nested try/finally enters itself again exactly if its own clause accepts the new exception; the run is given event by event |
| Unwinding.ThrowingFinally | IL2C.Runtime/include/il2c.h:440-449 | a finally block that is reached normally and throws runs twice; one that replaces a pending exception runs once |
| HandlerController.ContainsIsRange | IL2C.Core/Metadata/CodeInformation.cs:196-198 | for contiguous handlers ContainsOffset is one range |
| HandlerController.HandlerState.Update | IL2C.Core/Writers/ExceptionHandlerController.cs:27-77 | moves to the block that holds the offset, reports the ended and started blocks, and finishes exactly at the last end |
| HandlerController.ExceptionHandlerController.Update | IL2C.Core/Writers/ExceptionHandlerController.cs:127-158 | afterwards the state agrees with the offset exactly unless a try starts where a block of another handler ends |
| HandlerController.ExceptionHandlerController.StackIsActive | IL2C.Core/Writers/ExceptionHandlerController.cs:127-158 | an agreeing stack is the plain filter's answer, outermost first |
| HandlerController.ExceptionHandlerController.TryFinish | IL2C.Core/Writers/ExceptionHandlerController.cs:160-175 | at the end everything is finished exactly if at most one handler is still open |
| HandlerController.WriteBody | IL2C.Core/Writers/FunctionWriter.cs:492-539 | along the whole code the stack is the filter's answer, the callbacks are bracketed, and IsFinished holds exactly if at most one handler runs to the end |
| HandlerController.AdjacentRegionsClash | IL2C.Core/Writers/ExceptionHandlerController.cs:131-142 | two regions directly behind one another are a table for which the controller goes wrong |
| VirtualDispatch.OrderByMostOverrides | IL2C.Core/Metadata/MetadataUtilities.cs:493-516 | the entries are exactly the slots in order, each with exactly the methods that implement it |
| VirtualDispatch.LastIsMostDerived | IL2C.Core/Metadata/MetadataUtilities.cs:518-520 | the last method of an entry is the most derived override of its slot |
| VirtualDispatch.SlotsArePrefix | IL2C.Core/Metadata/TypeInformation.cs:453-491 | a base type's visible slots are the first visible slots of every derived type |
| VirtualDispatch.WriteLayout | IL2C.Core/Writers/TypeWriter.cs:94-111 | the newest slot of a name gets the short name, hidden ones the full name |
| VirtualDispatch.ContentsMatch | IL2C.Core/Writers/TypeHelperWriter.cs:214-226 | each vtable word is the most derived override of the slot at its place |
| VirtualDispatch.CallSiteMeaning | IL2C.Core/ILConveters/CallConverters.cs:263-283 | the call site finds the method's slot and names it short exactly if no newer slot has the name |
| VirtualDispatch.DispatchIsCorrect | IL2C.Core/ILConveters/CallConverters.cs:263-283 | the named member is unique in the static type's layout, and in every derived type's vtable the word at its place is the most derived override of the called slot |
| ObjectLayout.WriteMembers | IL2C.Core/Writers/TypeWriter.cs:163-218 | the loop over the base chain with its set of taken interfaces writes base members first, then of each type one vptr for each interface that is new, and its fields |
| ObjectLayout.MembersMeaning | IL2C.Core/Writers/TypeWriter.cs:163-189 | a class's structure has a vptr for exactly the interfaces that it or a base type implements |
| ObjectLayout.VptrsAreUnique | IL2C.Core/Writers/TypeWriter.cs:163-189 | no interface has two vptrs |
| ObjectLayout.FieldsAreMembers | IL2C.Core/Writers/TypeWriter.cs:195-218 | the data members are exactly all fields of the type and its base types, each once, base types first, in declaration order |
| ObjectLayout.FieldLies | IL2C.Core/Writers/TypeWriter.cs:163-240 | every field of every type of the base chain is at an aligned offset inside the structure, behind vptr0, and overlaps no other member |
| ObjectLayout.FieldsInOrder | IL2C.Core/Writers/TypeWriter.cs:195-218 | two fields keep the order of their types and declarations, so different fields are different members |
| ObjectLayout.SlotIsSeparate | IL2C.Core/Writers/TypeWriter.cs:163-240 | an interface vptr lies inside the structure and overlaps no other member, fields and other vptrs alike |
| ObjectLayout.BaseMemberStays | IL2C.Core/Writers/TypeWriter.cs:163-240 | every member of a base type is at the same offset in a derived type |
| ObjectLayout.BaseSlotStays | IL2C.Runtime/include/il2c.h:252-253 | the adjustor offset of an interface of a base class is the same in every derived class |
| ObjectLayout.InterfaceTypesMeaning | IL2C.Core/Writers/TypeHelperWriter.cs:241-247 | the runtime type lists each interface of the type and its base types once |
| ObjectLayout.ClassIsLaidOut | IL2C.Core/Writers/TypeHelperWriter.cs:241-284 | for every class hierarchy: all interface slots of the runtime type are inside the body, behind vptr0 and apart, and the entries of base types are kept |
| ObjectLayout.ValueIsLaidOut | IL2C.Core/Writers/TypeHelperWriter.cs:269-277 | for every value type and size: the interface slots of a box are behind the data, inside the allocation and apart |
| Casts.SetupVptrs | IL2C.Runtime/src/Core/il2c_allocator.c:80-97 | every vptr of the type is in place in the new object's bytes and no other byte has changed |
| Casts.StaticCast | IL2C.Runtime/include/il2c.h:257-262 | a static cast to an interface of a base class finds that interface's vptr in an object of any derived class |
| Casts.Memory.Isinst | IL2C.Runtime/src/Core/il2c.c:48-95 | succeeds exactly if the type or interface occurs along the base chain, and the result is a reference that adjusts to the same object |
| Casts.Memory.CastClass | IL2C.Runtime/src/Core/il2c.c:97-109 | throws exactly for non-instances |
| Casts.Memory.Allocate | IL2C.Runtime/src/Core/il2c_allocator.c:71-97 | fresh bytes, cleared except for the vptrs; a proper object; nothing older changes |
| Casts.Memory.CopyIn | IL2C.Runtime/src/Core/il2c.c:161 | copying the value behind the value type header leaves every vptr of the box intact, and the value reads back |
| Casts.Memory.Box | IL2C.Runtime/src/Core/il2c.c:139-167 | the box is a new proper object that holds exactly the bytes of the value |
| Casts.Memory.Box2 | IL2C.Runtime/src/Core/il2c.c:173-326 | boxes for exactly the supported pairs of sizes, with the converted value's bytes; other pairs throw and allocate nothing |
| Casts.ConvertMeaning | IL2C.Runtime/src/Core/il2c.c:210-281 | the conversion is congruent to the source modulo the destination's width, for all four sign combinations |
| Casts.FittingValueSurvives | IL2C.Runtime/src/Core/il2c.c:210-281 | a value that fits the destination comes out unchanged |
| Casts.Memory.UnboxAfterBox | IL2C.Runtime/src/Core/il2c.c:139-347 | unboxing a boxed value gives its bytes back |
| Casts.Memory.UnboxAfterBox2 | IL2C.Runtime/src/Core/il2c.c:173-347 | for every supported pair of widths and signs, unboxing what box2 made gives the source value modulo the destination's width, and the value itself if it fits |
| IntegerText.IntToW | IL2C.Runtime/src/Platform/strings.c:10-65 | the buffer holds the text and its terminator, and nothing behind them changes, for all four printers and the smallest values |
| IntegerText.DigitsDenote | IL2C.Runtime/src/Platform/strings.c:17-33 | the printed digits denote the number |
| IntegerText.TextFits | IL2C.Runtime/src/Platform/strings.c:62-65 | every text fits the temporary array, terminator included |
| IntegerText.ShortTextFits | IL2C.Runtime/src/System/Int16.c:8-10 | 16-bit values fit the caller's seven characters |
| IntegerParser.Saturates | IL2C.Runtime/src/Platform/strings.c:221-263 | comparing with quotient and remainder of the limit decides overflow exactly |
| IntegerParser.Accumulate | IL2C.Runtime/src/Platform/strings.c:231-263 | the value of the longest digit run clamped to long, ERANGE exactly if it was clamped |
| IntegerParser.TruncDivMeaning | IL2C.Runtime/src/Platform/strings.c:221-223 | the quotient q of a by b is the one with a remainder smaller than b that is zero or has a's sign |
| IntegerParser.Reading | IL2C.Runtime/src/Platform/strings.c:189-267 | every text of blanks, an optional sign, an optional 0x, and digits behind which comes no further digit is read, in bases 2 to 36 and base 0, as its digits' number with its sign, clamped to long, up to the end of the digits |
| IntegerText.DigitValueMeaning | IL2C.Runtime/src/Platform/strings.c:122-167 | a digit's value is its place in the alphabet of digits and letters, of either case, and nothing else is a digit |
| IntegerParser.ParseLong | IL2C.Runtime/src/Platform/strings.c:172-267 | blanks, sign, prefix and digits read as specified for every base; the end pointer and errno are exact |
| IntegerParser.RoundTrip | IL2C.Runtime/src/Platform/strings.c:172-267 | parsing what the printer wrote gives the number back, end pointer at the terminator |
| Delegates.Combine | IL2C.Runtime/src/System/Delegate.c:47-121 | concatenation in a new object; null operands give the other one itself |
| Delegates.Remove | IL2C.Runtime/src/System/Delegate.c:123-212 | exactly the last occurrence goes; null if nothing is left, the same source if there is none |
| Delegates.RemoveUndoesCombine | IL2C.Runtime/src/System/Delegate.c:123-212 | removing what was combined last gives the first operand back |
| Delegates.RemoveTakesValue | IL2C.Runtime/src/System/Delegate.c:165-206 | a removal takes exactly the value's entries away |
| Delegates.RemovedIsUnique | IL2C.Runtime/src/System/Delegate.c:157-211 | what remains is determined |
| PolishNotation.ParseExpression | samples/Calculator/Calculator.Core/PolishNotation.cs:162-197 | equals the grammar's reading and advances on every success |
| PolishNotation.ParseNumeric | samples/Calculator/Calculator.Core/PolishNotation.cs:129-160 | reads one token up to a space through the runtime's own parser |
| PolishNotation.ParseRoundTrip | samples/Calculator/Calculator.Core/PolishNotation.cs:162-197 | a tree printed with single spaces parses to itself and to the end of the line |
| PolishNotation.ReduceWraps | samples/Calculator/Calculator.Core/PolishNotation.cs:66-89 | without divisions, reducing is the exact value wrapped once to 32 bits |
| PolishNotation.ReduceIsExact | samples/Calculator/Calculator.Core/PolishNotation.cs:66-89 | if all intermediate values fit, reducing is exact; the exact value of a division is its quotient by the property of its remainder, not by how it is computed |
| PolishNotation.DivisionMeaning | samples/Calculator/Calculator.Core/PolishNotation.cs:80-84 | a division node reduces to C#'s quotient: what remains is smaller than the divisor and zero or of the dividend's sign |
| PolishNotation.ReduceIsMeaning | samples/Calculator/Calculator.Core/PolishNotation.cs:66-89 | for every tree: unbounded arithmetic wrapped to 32 bits where a division looks at its operands and once at the end, with the same errors |
| PolishNotation.FailureMeaning | samples/Calculator/Calculator.Core/PolishNotation.cs:80-84 | evaluation fails exactly if some division whose operands have values divides by zero or the smallest number by minus one |
| PolishNotation.Calculates | samples/Calculator/Calculator.Core/PolishNotation.cs:162-197 | printing a tree, parsing the line and reducing the result evaluates the tree |
| Interleavings.GateAlwaysHolds | IL2C.Runtime/src/Core/il2c_gc.c:504-509 | under every schedule the counter is the number of threads between increment and decrement |
| Interleavings.MutualExclusion | IL2C.Runtime/src/Core/il2c_gc.c:504-509 | no two threads are ever in a collection at once |
| Interleavings.LetsIn | IL2C.Runtime/src/Core/il2c_gc.c:504-509 | after every schedule a thread that comes starts a collection if and only if nobody else is inside or being turned away |
| Interleavings.AloneAlternates | IL2C.Runtime/src/Core/il2c_gc.c:504-509 | a thread that moves alone collects, leaves and collects again, any number of times |
| Interleavings.PushStepHolds | IL2C.Runtime/src/Core/il2c_allocator.c:102-111 | a step of a linking loop leaves the list as it is or puts the finished header in front |
| Interleavings.NoPushIsLost | IL2C.Runtime/src/Core/il2c_allocator.c:102-111 | under every schedule no completed push is lost or doubled and the older list stays a suffix |
| Interleavings.ExchangeSucceeds | IL2C.Runtime/src/Core/il2c_allocator.c:102-111 | whatever the others do after a push has read the head, its exchange succeeds if and only if no push has completed since |
| Interleavings.PushAlone | IL2C.Runtime/src/Core/il2c_allocator.c:102-111 | a push that moves alone is done after two steps, with its header in front of the old list |

## Left out

Translation:
- Stack information holders are values rather than objects: the decode context replaces a holder instead of updating it, so aliasing of holders is not modelled.
- `ble` and `ble.s`, which are emitted as a greater-than comparison (IL2C.Core/ILConveters/BranchConverters.cs:225-245), are not among the comparing branches.
- TranslationCorrectness.TranslationPreservesMeaning: requires arithmetic on operands of the standard's types. An int32 with an int64 has no meaning in CIL, and the difference of two managed pointers is a native integer there and a pointer in C; `TranslationCorrectness.NonstandardDisagrees` shows that it fails for both.
- TranslationCorrectness.TranslationPreservesMeaning: does not cover leave, endfinally, throw and rethrow, nor typings that merge different types (bool with int32) at one offset, because the decoder does not reconcile them. Decoding and writing cover these instructions.
- ILConverters.Store: assignability between different reference types, enums, unsigned types and pointers is reduced to the cases listed in `IL.IsStorable`.
- Calls, fields, arrays, objects and all other instructions; debug information, hints, code block numbering and the numbering of leave continuations.

Collector:
- The heap is a map from addresses to headers with typed bodies; byte layout, interface pointer adjustment inside references, monitor locks and debug logging are not modelled.
- One mutator thread: other threads, the retry loops of lock-free operations under collection, and a collection between linking a header and marking it initialized are not modelled (linking alone is, in `Interleavings`).
- Finalizers may allocate, re-register their object and overwrite the thread's anchor; they do not resurrect objects. The anchor is handed through the sweep and written back at its end, because nothing reads it meanwhile.
- GcRuntime.Runtime.Run: references that a step hands over across its collection (a returned one, the targets of a new delegate) must not come from the anchor; generated code takes them from its execution frame. `Perform` asks for the exact condition instead.
- GcRuntime.Runtime.Run: the steps name no object through an inherited reference field, since the collector does not keep it (`GcInheritance.InheritedFieldIsLost`).
- Static fields of value types: the generated block holds the values themselves (IL2C.Core/Writers/SourceCodeWriter.cs:216-227) where marking expects descriptors (IL2C.Runtime/src/Core/il2c_gc.c:249-272); static blocks of the model are registered with references only.
- Constant objects hold no references to follow; loads from them are not among the steps.
- GcRuntime.Runtime.UnregisterRoot: the mutator's own thread object stays registered, because the source unregisters it only when the thread ends.
- GcShutdown.WaitForPendingFinalizers: requires finalizers that allocate no finalizable objects and re-register only objects that are held without the anchor; if an unreachable object's finalizer re-registers it, the loop does not end (`GcShutdown.WaitForever`).
- GcShutdown.CollectForFinalShutdown: requires finalizers that neither re-register nor allocate finalizable objects; otherwise its loop need not end either.

Exceptions:
- ExceptionRuntime.ThreadContext.Execute: follows a run up to the first time that a running handler is entered again, and not further.
- Frames that hold catch clauses and a finally block at once, leave continuations across several handlers, setjmp internals, and the signal handler.
- HandlerController.WriteBody: requires a table without clashes, since the controller is wrong for others.

Object model and the rest:
- Method order within a type is taken as given; the signature comparers and interface implementation lookup are not modelled. VirtualDispatch.DispatchIsCorrect assumes that overrides are as visible as their slots, and calls of sealed methods, which are direct, are not part of it.
- ObjectLayout.ClassIsLaidOut: covers generated classes; runtime types written by hand in C, delegates, enums and native types are not part of the model.
- ObjectLayout.ValueIsLaidOut: supposes that System.ValueType implements no interface, which holds in the runtime.
- Casts.Memory.Unbox: the argument is an unadjusted reference, as the source requires.
- Casts.Memory.Box2: bytes are little-endian; the proofs use nothing but that decoding inverts encoding.
- Delegates.Combine: operands of different delegate types stop at an assertion in the source and are excluded.
- IntegerParser.ParseLong: the width of long is a parameter; il2c_wtoi64 and il2c_twtoi are not modelled.
- PolishNotation.ParseNumeric: TryParse is the runtime's, which accepts text behind the digits.
- Interleavings.NoPushIsLost: no sweep runs meanwhile.
- Metadata loading, name mangling, header and text writers, platform layers, and floating-point text conversion.
