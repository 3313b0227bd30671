# Verified models of rustc_codegen_clr

rustc_codegen_clr compiles Rust MIR to CIL and runs the Rust standard library's own test suites on
.NET. This project models its most intricate parts in Dafny 4.11 and proves what each of them is for.
Names, branches, edge cases and constants follow the Rust, Python and C# sources; every theorem is
about all inputs, all runs or all interleavings.

| module | what it models |
|---|---|
| `Packing`, `Order`, `Protocol`, `Scheduler` | The adaptive test scheduler: greedy packing of test names, the strict event protocol of one batch, and the loop that trusts, discards, bisects, falls back and stops. The apphost and the clock are arbitrary functions. |
| `SourcePatches` | Source compatibility edits: digesting a tree as if patched, patching it, and editing twice. |
| `Casts` | Integer `as` casts as CIL conversions on the CIL evaluation stack (ECMA-335 Partition III, sections 1.1.1 and 3.27), and the cast peephole that runs after it. |
| `Repeat` | `[x; N]` as 16 element stores and doubling block copies on a byte memory (`cpblk` with overlapping ranges is undefined, ECMA-335 Partition III, section 3.30). |
| `Unsize` | The layout walk of unsizing coercions and the stores it emits, on a little-endian byte memory. |
| `ManagedStorage`, `TupleUses` | The GC-reference wall: the search for managed values nested in a type, and the use counters that exempt RustCall tuple locals. |
| `Unwind`, `Regions` | Threading of cleanup jumps, exception regions and synthetic abort handlers. |
| `RustCall` | Spreading a RustCall tuple at the caller, rebuilding it at the callee, caller location, argument names, and function pointers without a closure receiver. |
| `Closure` | The dependency-first walk over items and allocations that emits an alias target. |
| `Records` | Generated equality, hashing, operators, constructor and deconstruction of managed records. |
| `StableIdentity` | The byte stream hashed for a structural type name. |
| `Dispatch`, `StreamLease`, `ManagedHandle` | Ownership protocols on the C# side: exactly-once completion and release under interleavings, and the handle table. |
| `Wrappers`, `Arithmetic`, `Finite` | An option type, remainders, and sizes of finite sets. |

Pure code became functions and lemmas. Code that changes things step by step became methods and
classes whose contracts tie the new state to a specification function. Code that is run by the CLR
(`cilly` trees and roots) became a small syntax with an evaluator. Concurrent code became a state
machine over atomic steps, with the object's method proved to be an uninterrupted run of it. Every
lemma carries `{:induction false}`, so that no proof leans on automatic induction.

Compiler queries (layouts, drop glue, trait selection, monomorphization, vtable slots) are inputs of
the models, with well-formedness preconditions. Hash functions are left out: a digest is the stream
that is hashed.

## Where the code and its promises differ

* `int_to_int` (src/casts.rs:22-118) zero-extends when the target is a pointer, so a negative `i8`,
  `i16` or `i32` would not become the address `v as usize`; `Casts.IntToPointerExactly` gives the exact
  condition. This is latent: the only pointer targets that reach the function are enum tags, whose source
  is `u64` (src/utilis/adt.rs:53). MIR's address casts do not use it. They relabel the operand
  (src/rvalue.rs:213-223), which gives the address exactly for operands of pointer width and is refused by
  the type checker otherwise (`Casts.ExposedPointerExactly`).
* The field arm of `opt_int_cast` (cilly/src/ir/opt/opt_node.rs:162-164) drops a cast whatever its
  extension; `Casts.FieldArmExactly` says for which casts that keeps the value. This is latent too:
  `int_to_int` emits no narrow cast with the other type's extension (`Casts.IntToIntUsesOwnExtensions`), so
  that lowering and peephole together compute `as` (`Casts.OptimizedCastComputesAs`). The SIMD comparisons do
  (cilly/src/ir/builtins/simd/binop.rs:409-416 zero-extends to a signed mask lane), but on a comparison,
  which is no field.
* The comment on transient tuples (src/managed_storage.rs:711-715) says that a return adds a use. The
  implicit read of the return place by `Return` is visited as no place, so a tuple that is the return
  place and is also copied into a RustCall is exempted: `TupleUses.ReturnedTupleIsExempt`, and
  `TupleUses.PackedLocalNeverEscapesExactly` for the exact condition.
* `storage_violation_inner` hands `follow_references` down without ever testing it
  (src/managed_storage.rs:270-452), so references are always followed and the verdict on a static is the
  verdict on its value.
* `AliasMonoClosure` is described as dependency-first. For the items a function names, drop glue and
  thread-local shims that holds. A static can precede an item it points to when both hang below an
  allocation that is still being visited: `Closure.SharedAllocationBreaksOrder`, and
  `Closure.CollectOrderExactly` for the exact order of any two emitted items.
* `TryDispatch` promises that a rejection cancels the callback
  (mycorrhiza_interop_helpers/RustUiDispatcher.cs:165-168). False only means "taken": a host that runs the
  work and then rejects it leaves it executed (`Dispatch.FalseAfterExecution`). A false answer means "not
  executed" exactly on the schedules on which no run's exchange comes before the first cancel's
  (`Dispatch.FalseMeansCancelledExactly`).
* `simplify_handler` answers "no handler" for an empty block that is unreachable, ends in a tail call or
  has no terminator; only then do the effects of unwinding change (`Unwind.ThreadingKeepsUnwinding`). On a
  cycle of empty blocks its recursion has no end.
* An unwind edge that must terminate does abort in normal blocks (by a region) and at drops in cleanup
  blocks (by an inline guard, src/terminator/mod.rs:1488-1516). A call, assertion or assembly in a cleanup
  block gets neither: its abort handler is made, but no region names it (src/assembly.rs:580-587), and
  the exception goes on. `Regions.TerminateEdgeAbortsExactly` is the exact condition,
  `Regions.UnreferencedAbortHandler` a concrete body whose cleanup block runs when the first call throws.
  A method without any region drops all its cleanup blocks (cilly/src/ir/method.rs:784-788,
  `Regions.CleanupKeptExactly`).

## Model

| member | source | states |
|---|---|---|
| Packing.ExactNameBatches | feasibility/stdlib_suite.py:3280-3306 | Both errors exactly when due; otherwise nonempty batches within both caps whose concatenation is the input, and no order-preserving split within the caps has fewer batches. |
| Packing.BytesOfCommandLine | feasibility/stdlib_suite.py:3291-3292 | The bytes counted for a batch are those of its names on a command line, a separator behind each. |
| Packing.GreedyStaysAhead | feasibility/stdlib_suite.py:3291-3305 | A rival split that lags behind a greedy one by some names needs at least as many batches: the exchange argument behind optimality. |
| Packing.Bisect | feasibility/stdlib_suite.py:3309-3314 | Nothing for at most one name; otherwise two nonempty, strictly shorter halves in order, the first no longer than the second. |
| Protocol.ParseBatch | feasibility/stdlib_suite.py:3317-3417 | Accepts exactly the transcripts the protocol allows, described without reference to line order, and reports one verdict for each test that ran. |
| Protocol.ReadCountDecides | feasibility/stdlib_suite.py:3364-3391 | Reading a count as the integer it equals loses nothing: every later comparison comes out as Python's `!=` on the JSON value, `3.0` and `true` included. |
| Protocol.CompleteExactlyWhenAllResolved | feasibility/stdlib_suite.py:3317-3417 | With no test allowed to be ignored, an accepted transcript is complete exactly when every expected test has a verdict, and its closing event is "failed" exactly when some test failed. |
| Protocol.FinalChecksDecide | feasibility/stdlib_suite.py:3364-3395 | The checks after the last line decide acceptance of the whole transcript. |
| Protocol.ReadVerdicts | feasibility/stdlib_suite.py:3397-3417 | One verdict per test that ran, or a failure exactly when a record is malformed. |
| Scheduler.JudgeCredits | feasibility/stdlib_suite.py:4338-4371 | The branch ladder credits exactly what a trustworthy run vouches for; nothing is left over exactly when the protocol was complete and trusted; every leftover has a split reason and the state variable is set whenever it is read. |
| Scheduler.RecordResults | feasibility/stdlib_suite.py:4373-4392 | Trusted results are added and nothing is overwritten; the "resolved test twice" branch is unreachable. |
| Scheduler.RunBatch | feasibility/stdlib_suite.py:4269-4425 | One attempt, faithfully recorded: what it resolved, what it left, its state, recovery and reason. |
| Scheduler.NextBatchIsFresh | feasibility/stdlib_suite.py:4264-4272 | A popped batch has no duplicates, is selected, and none of its tests is resolved yet. |
| Scheduler.ConservedAfterBatch | feasibility/stdlib_suite.py:4373-4414 | Queued names, the popped batch's leftovers and settled names are together the selected names, each once. |
| Scheduler.ConservedAfterSplit | feasibility/stdlib_suite.py:4401-4408 | Bisecting what is left keeps that. |
| Scheduler.ConservedAfterExact | feasibility/stdlib_suite.py:4438-4497 | So does an exact run of a single leftover. |
| Scheduler.ClaimAdaptiveAttempt | feasibility/stdlib_suite.py:4238-4262 | An attempt is claimed exactly when the limit and then the clock allow it; a refusal records which of them ran out. |
| Scheduler.RequeueCost | feasibility/stdlib_suite.py:4401-4413 | What an attempt requeues costs at most the batch runs and exact runs its batch still had. |
| Scheduler.RunNext | feasibility/stdlib_suite.py:4269-4414 | One round keeps the queue disjoint, nonempty and fresh and strictly lowers the number of batch runs left, whatever the apphost does. |
| Scheduler.RunExact | feasibility/stdlib_suite.py:4438-4497 | An exact run needs a claim of its own; its status is recorded with its attempt, unless it timed out under the recovery deadline, which ends the target on the time budget and records nothing. |
| Scheduler.WalkStep | feasibility/stdlib_suite.py:4264-4413 | Popping the next batch and pushing the halves of what it leaves keeps the queue in list order and the attempts depth first. |
| Scheduler.RunQueue | feasibility/stdlib_suite.py:4264-4506 | The loop stops; n names in b batches cause at most 2n - b batch runs and n exact runs; every claim was granted under the limit and with time left; attempts go depth first in the order of the list; a budget ran out exactly when some name has no result; and the loop ended for the reason it gives, at the claim it gives: it had run its course, the limit or else the clock refused the next claim, or the last exact run timed out with less time left than a test may take. |
| Scheduler.TimeoutHasCause | feasibility/stdlib_suite.py:4442-4487 | A target ends on the time budget only if the clock refused the next claim, or the last claim was for an exact run that timed out with less time left than a test may take. |
| Scheduler.ExactRunIsRecorded | feasibility/stdlib_suite.py:4467-4497 | An exact run that was claimed and not cut short settles its test with its own status, a timeout of its own included. |
| Scheduler.TerminalizeUnresolved | feasibility/stdlib_suite.py:2498-2518 | Exactly the unresolved tests get the given status. |
| Scheduler.RunTarget | feasibility/stdlib_suite.py:4205-4536 | For every apphost and clock, each test of a target ends with one result that a credited batch, an exact run or an exhausted budget explains, within the work bounds, in list order; the budget is complete exactly when every result comes from a run, and otherwise ran out for its stated cause; a name too long to batch is the only abort. |
| Scheduler.Prefill | feasibility/stdlib_suite.py:4187-4202 | Ignored and policy-skipped tests, and only those, get their result without a run. |
| Scheduler.ExecutableInOrder | feasibility/stdlib_suite.py:4206-4212 | The tests of a target are tried in the order of selection. |
| Scheduler.RunSuite | feasibility/stdlib_suite.py:4187-4545 | Every selected test finishes with exactly one result, every result is explained, and every target record keeps the promises of `RunTarget` for the tests selected and neither ignored nor skipped. |
| Casts.IntToIntComputesAs | src/casts.rs:22-118 | For every pair of integer, bool and 128-bit types and every value, the emitted tree yields the canonical slot of Rust's `as` from the canonical slot of the source. |
| Casts.WrapIsTheOnlyCandidate | src/casts.rs:22-118 | Reduction modulo 2^width into the target's range has one answer only, which pins down `as`. |
| Casts.MatchingConversion | cilly/src/ir/pe_exporter/body.rs:801-825 | A conversion of at most 64 bits with the matching extension computes `as` on canonical slots. |
| Casts.ReceiveCanonical | src/casts.rs:7-20 | A call receives exactly the value its canonical argument stands for. |
| Casts.ThroughUnsigned | src/casts.rs:27-36 | An unsigned source cast to a signed target in two conversions, through the unsigned target, computes `as`. |
| Casts.WideCast | src/casts.rs:38-114 | Every cast with a 128-bit source or target computes `as`. |
| Casts.CastThenCall | src/casts.rs:41-73 | A conversion followed by a 128-bit operator computes `as` for `isize`, `bool` and pointer sources. |
| Casts.IntToPointerExactly | src/casts.rs:22-118 | Integer to pointer yields the address of `v as usize` exactly when the source is not a negative `i8`, `i16` or `i32`. |
| Casts.PeepholeKeepsValue | cilly/src/ir/opt/opt_node.rs:153-220 | Every rewrite of a cast that uses its target's own extension keeps its value. |
| Casts.FieldArmExactly | cilly/src/ir/opt/opt_node.rs:162-164 | Dropping a cast of a field of the same type keeps the value exactly under the stated condition on type, extension and value. |
| Casts.IntToIntUsesOwnExtensions | src/casts.rs:22-118 | Every cast `int_to_int` emits uses the extension of its own target type. |
| Casts.OptimizedCastComputesAs | cilly/src/ir/opt/opt_node.rs:153-220 | The tree of `int_to_int` after the peephole still computes Rust's `as`, for every operand tree. |
| Casts.ExposedPointerExactly | src/rvalue.rs:213-223 | Relabelling an integer as a pointer gives the address `v as usize` exactly for `usize` and `isize`, and is refused for every other type. |
| Casts.ExposedThroughUsize | src/rvalue.rs:213-223 | Cast to `usize` first, every integer becomes its address. |
| Repeat.EmitRepeat | src/rvalue.rs:417-507 | The loops emit the plan, and the doubling counter stays below 2^64. |
| Repeat.PlanFills | src/rvalue.rs:417-507 | On any memory the plan runs without an overlapping copy, fills all elements with the element's bytes and changes nothing else. |
| Repeat.StoresFill | src/rvalue.rs:464-468 | The element stores fill the first elements and leave the rest. |
| Repeat.CopyExtends | src/rvalue.rs:470-486 | A copy behind the filled part extends it by the elements copied. |
| Repeat.CopyIsDefined | src/rvalue.rs:470-486 | Copying no more than what precedes the destination never overlaps its source. |
| Repeat.CopiesFill | src/rvalue.rs:469-486 | The doubling copies fill up to exactly `times` elements. |
| Repeat.CopiesCount | src/rvalue.rs:469-486 | The number of copies is the least one that doubling allows. |
| Repeat.DoublingFitsExactly | src/rvalue.rs:469-485 | The doubled counter stays below 2^64 exactly when `times` is at most 2^63. |
| Unsize.BuildUnsizePlan | src/unsize.rs:177-262 | Fails exactly on coercions without one chain of coerced fields; otherwise appends the copies of the layout walk and finds its one pointer leaf. |
| Unsize.PlanAgrees | src/unsize.rs:47-63 | The flattened plan writes each destination byte at most once, and from the byte a top-down reading of the two layouts names. |
| Unsize.LeafInside | src/unsize.rs:177-262 | The pointer leaf lies inside both values. |
| Unsize.LeafIsApart | src/unsize.rs:177-262 | The pointer leaf shares no byte with a copy. |
| Unsize.Emit | src/unsize.rs:65-97 | The emitted roots are the sized copies in order and then the two leaf stores; it fails exactly when the leaf's destination is no fat pointer, or its pointee neither goes from array to slice nor becomes a trait object with the metadata that needs. |
| Unsize.UnsizeIsCorrect | src/unsize.rs:47-97 | For every well-formed nest of aggregates ending in one pointer: other fields are copied, the leaf gets the source data pointer and the right metadata, and nothing outside the destination changes. |
| Unsize.CoercedPointer | src/unsize.rs:290-351 | Read back as words, the leaf holds the source's data pointer and the metadata. |
| Unsize.MetadataIsValid | src/unsize.rs:354-406 | Every coercion Rust allows has metadata, and it is the array length, or a vtable of the concrete type for the new trait: its own implementation's, or by upcasting the supertrait's, with or without a vtable slot. |
| Unsize.CoercionIsCorrect | src/unsize.rs:47-97 | End to end: after the emitted stores, the fat pointer inside the destination holds the source's data pointer and the right metadata, for every coercion Rust allows. |
| Unsize.VtablesOkIsHonest | src/unsize.rs:354-406 | What that assumes of vtables holds of a program with unrelated traits in which a vtable of one is none of the other. |
| Unsize.WordRoundTrip | src/unsize.rs:347-350 | A stored word reads back. |
| ManagedStorage.Search | src/managed_storage.rs:270-452 | A clean answer leaves every type entered since the call with all nested types passed; a violation comes with the walk that leads to it. |
| ManagedStorage.EdgesAreNested | src/managed_storage.rs:300-450 | The visit meets exactly the types a shape stores or refers to, each under its label: fields, generic arguments of owners, captures, coroutine states, tuple elements, elements, referents, and what patterns and binders are about. |
| ManagedStorage.StorageViolation | src/managed_storage.rs:257-268 | Terminates on every finite graph and reports nothing exactly when no violating type is reachable past capability-safe and zero-sized types; a report names a real leaf and the path to it. |
| ManagedStorage.WalksStayPassed | src/managed_storage.rs:297-302 | The shared `seen` cut-off loses nothing. |
| ManagedStorage.EffectiveDirectKind | src/managed_storage.rs:220-247 | Finds a managed kind exactly when unwrapping transparent layers meets one, cycles included. |
| ManagedStorage.SoleFieldExactly | src/managed_storage.rs:220-247 | A layer is unwrapped exactly when it is a transparent aggregate with one field that takes space. |
| ManagedStorage.CycleHasNoKind | src/managed_storage.rs:229-231 | A chain of layers that returns to itself meets none. |
| ManagedStorage.LocalStorageViolation | src/managed_storage.rs:457-475 | Clears exactly direct managed values, references to them, and types with nothing managed nested; otherwise names a real leaf and the path to it. |
| ManagedStorage.IsTransientTuple | src/managed_storage.rs:684-701 | True exactly for tuples of allowed locals at least one of which is managed. |
| TupleUses.TransientRustCallTupleLocals | src/managed_storage.rs:716-842 | The proven locals are exactly the exempt ones: packed once, or a spread argument that is forwarded once or only read by field. |
| TupleUses.CountersDecidePacked | src/managed_storage.rs:784-792 | Counts 1, 1 and 2 say exactly: one whole-tuple construction, one RustCall operand, no other occurrence. |
| TupleUses.CountersDecideForwarded | src/managed_storage.rs:833-834 | Counts 1 and 1 say exactly: one forward and no other occurrence. |
| TupleUses.ScanBlock | src/managed_storage.rs:724-782 | The three counters agree with the occurrences of every block scanned. |
| TupleUses.ScanBody | src/managed_storage.rs:724-782 | And of the whole body. |
| TupleUses.VisitPlaces | src/managed_storage.rs:666-671 | The place counter counts every occurrence of every local. |
| TupleUses.UsesAreOccurrences | src/managed_storage.rs:666-782 | The visitor meets every place of the body, with the access it has there, as often as it occurs. |
| TupleUses.ProveSpreadUses | src/managed_storage.rs:645-664 | Valid with a field read exactly when the local occurs and every occurrence reads one direct field. |
| TupleUses.PackedLocalNeverEscapesExactly | src/managed_storage.rs:711-715 | With one implicit read for every `Return` counted in, a local packed once is still packed once, and never escapes, exactly when it is not the return place of a body that returns. |
| TupleUses.ReturnedTupleIsExempt | src/managed_storage.rs:711-715 | A tuple that escapes by being returned can be exempt. |
| Unwind.ThreadingKeepsUnwinding | src/basic_block.rs:112-177 | The chosen handler does something, and unwinding to it runs the same events as unwinding to the original one, in every world, exactly when the jumps do not end in an empty unreachable, tail-calling or unterminated block. |
| Unwind.ThreadFollowsChain | src/basic_block.rs:128-158 | Gotos and no-op drops are silent steps of the run. |
| Unwind.ThreadExactly | src/basic_block.rs:112-177 | Every answer by the block at which the jumps stop: an internal error exactly at an empty block that returns, yields or has a false edge, a kept handler exactly at a block that does something, none exactly at a resume or a dropped effect, no end exactly on a cycle. |
| Unwind.RunShows | src/basic_block.rs:112-177 | Nothing a block does stays unseen in the events that runs are compared by: its statements in order, then its terminator, which the program's next decision may depend on. |
| Unwind.CutOffIsHarmless | src/basic_block.rs:128-158 | The recursion ends within as many jumps as there are blocks or not at all. |
| Unwind.CycleDiverges | src/basic_block.rs:128-158 | A cycle of blocks that do nothing is followed forever. |
| Unwind.DroppedChainShows | src/basic_block.rs:125-135 | A dropped effect makes a visible difference. |
| Unwind.HandlerIsCleanupOrSynthetic | src/basic_block.rs:30-110 | A handler is a cleanup block of the body or the synthetic block of the edge's own reason. |
| Regions.AddFn | src/assembly.rs:485-615 | Normal and cleanup blocks in MIR order, each with the statements and the terminator of its MIR block and nothing else, the repacking code in front of the first, regions and abort handlers as specified, cleanup blocks only if there is a region; or one throwing block and nothing else after a failed statement; every region resolves. |
| Regions.ExportedCode | src/assembly.rs:485-621 | No code is lost and none is added: kept blocks come in MIR order and run their statements in order and then their terminator; only the drop on a terminate edge of a cleanup block may be guarded. |
| Regions.ExportedResolves | src/assembly.rs:568-600 | Every region guards one normal block with exactly one cleanup block. |
| Regions.CleanupKeptExactly | cilly/src/ir/method.rs:781-805 | Cleanup blocks are kept, all of them, exactly when some normal block has a handler; otherwise all are dropped. |
| Regions.AbortHandlersExactly | src/assembly.rs:583-600 | A synthetic id is there once if some block uses it and cleanup blocks are kept, else not at all. |
| Regions.TerminateEdgeAbortsExactly | src/terminator/mod.rs:1478-1516 | An exception at a terminate edge aborts for the edge's own reason exactly when unwinding is on, the call is not substituted, and the block is normal or drops: a region leads to the abort exactly from normal blocks, an inline guard is there exactly around drops in cleanup blocks. |
| Regions.CleanupEdgeRunsTheSame | src/basic_block.rs:94-100 | An exception on a cleanup edge runs what its MIR cleanup block would run. |
| Regions.AbortHandlerReferencedExactly | src/assembly.rs:570-582 | An abort handler is named by a region exactly when a normal block uses it. |
| Regions.UnreferencedAbortHandler | src/assembly.rs:570-600 | A call in a cleanup block that a region leads to, and whose own unwinding must abort: its abort handler is there, no region names it, and an exception at the call aborts nowhere. |
| RustCall.LowerCallArgs | src/abi.rs:272-342 | Fails exactly when the operands do not fit the plan; otherwise every slot holds its prefix operand, its tuple item, an empty value or the caller location. |
| RustCall.EmitRepack | src/assembly.rs:439-453 | One store per field that is not void. |
| RustCall.RepackSets | src/assembly.rs:439-453 | The stores set exactly these items, each from its own slot. |
| RustCall.SlotsAreCoveredOnce | src/abi.rs:376-403 | The checks of both sides force the same split, and plain arguments, tuple fields and the caller location list every slot exactly once. |
| RustCall.TupleFieldsExactly | src/abi.rs:376-403 | The callee finds its tuple exactly when its spread argument is the one behind the caller's prefix. |
| RustCall.RebuildUndoesSpread | src/abi.rs:272-342 | The callee's tuple equals the caller's on every element that is not zero-sized, for every arity and mix, with or without a caller location. |
| RustCall.CalleeReadsItsArguments | src/place/get.rs:7-36 | Unspread locals read the slot of their operand, and the rebuilt tuple has a CIL local of its own. |
| RustCall.LocalsAreApart | src/place/get.rs:7-36 | No two MIR locals share a CIL local or an argument slot, and all indices are in range. |
| RustCall.PhysicalArgumentNames | src/abi.rs:346-373 | One name a slot: plain arguments keep theirs, spread fields and the caller location have none. |
| RustCall.BarePointerAgrees | src/abi.rs:228-270 | The two computations of a bare function pointer agree on its signature and on the dropped slot, no other target is accepted, and both refuse exactly when the receiver holds a value. |
| RustCall.AdapterSlots | cilly/src/ir/asm.rs:4422-4466 | For any list of ignored slots an adapter exists exactly when they are distinct, in range and void and dropping them gives the target signature; its slot map counts the retained slots. |
| RustCall.AdapterForwards | cilly/src/ir/asm.rs:4519-4526 | The adapter passes its arguments on in order to the retained slots, and an empty value to every ignored one. |
| RustCall.AdapterDeliversArguments | cilly/src/ir/asm.rs:4514-4525 | Every accepted function-pointer coercion meets the adapter's conditions; the adapter passes every retained argument on in order and an empty receiver. |
| Closure.Collect | src/comptime.rs:1860-1870 | Terminates on every finite cyclic graph; emits each reachable non-magic item once, the target last, any two of them in the order of `CollectOrderExactly`; an item precedes its user when no node on the way to it leads back to the user, in particular every directly used item that cannot reach its user. |
| Closure.AliasMonoClosure.Visit | src/comptime.rs:1872-1913 | The state after a visit is the depth-first walk's; the item is entered, and finished last if it was new. |
| Closure.AliasMonoClosure.VisitStatic | src/comptime.rs:1915-1937 | All dependencies of a static are entered, in order: drop glue, provenance, thread-local shim. |
| Closure.AliasMonoClosure.VisitAllocation | src/comptime.rs:1939-1971 | Likewise for an allocation, which is entered once. |
| Closure.FreeWalkIsDone | src/comptime.rs:1872-1913 | When a node is finished, everything on a walk out of it that never leads back is finished already. |
| Closure.FinishedExactly | src/comptime.rs:1860-1870 | Finished means reachable, and conversely. |
| Closure.FreeDependencyPrecedes | src/comptime.rs:1872-1913 | Dependency order of the emitted items. |
| Closure.WalkKeeps | src/comptime.rs:1872-1971 | A visit keeps the walk's invariant, with the open nodes and the finished ones apart, and only adds to what is finished. |
| Closure.CallFinishesExactly | src/comptime.rs:1872-1913 | When a visit of a new node returns, exactly what was finished before and what the node reaches past the open nodes is finished, the node itself last. |
| Closure.EmittedBeforeExactly | src/comptime.rs:1872-1971 | From the state in which an item is entered: another one is emitted before it exactly when it is finished then, or reached from there past the nodes open at that call. |
| Closure.CollectOrderExactly | src/comptime.rs:1860-1971 | For any two emitted items the run has such a state, and their order in the emitted list is the one it decides. |
| Closure.SharedAllocationBreaksOrder | src/comptime.rs:1939-1971 | A static behind an allocation in progress is emitted before a function it points to that depends on nothing. |
| Records.EmitEquals | src/comptime.rs:1424-1447 | The loop emits the null check, one comparison a field, and the two results. |
| Records.EmitHash | src/comptime.rs:1531-1549 | The loop emits the rolling combination. |
| Records.EmitDeconstruct | src/comptime.rs:1674-1698 | One out-parameter store a field, in order. |
| Records.EmitCtor | src/comptime.rs:3064-3085 | The base call and one field store each, behind the base arguments. |
| Records.EqualsExactly | src/comptime.rs:1424-1466 | Typed equality is true exactly when the other record is there and all fields are comparer-equal; it never dereferences null. |
| Records.ObjectEqualsExactly | src/comptime.rs:1484-1529 | Object equality is typed equality on records and false on null and on anything else. |
| Records.OperatorsExactly | src/comptime.rs:1717-1753 | `==` treats null as equal to null only, and `!=` is its negation. |
| Records.EqualityIsEquivalence | src/comptime.rs:1717-1753 | If the field comparers are equivalences, so is `==`. |
| Records.HashExactly | src/comptime.rs:1531-1581 | The hash is the polynomial of the field hashes in -1521134295, wrapped once to 32 bits. |
| Records.WrapStep | src/comptime.rs:1541-1548 | Wrapping after every multiplication and addition is as good as wrapping at the end. |
| Records.EqualRecordsHashEqually | src/comptime.rs:1531-1581 | Records the emitted equality finds equal have equal hash codes. |
| Records.CtorInitializes | src/comptime.rs:3064-3085 | The primary constructor leaves every field with its argument, whatever the base constructor does. |
| Records.DeconstructUndoesConstruction | src/comptime.rs:1674-1715 | Deconstruction returns the constructor's field arguments in order, behind any base arguments. |
| StableIdentity.FramePrefixFree | src/stable_identity.rs:26-33 | No framed field is a prefix of another one's stream. |
| StableIdentity.IdentityStreamInjective | src/stable_identity.rs:55-62 | Two identities have the same stream only for the same domain and the same field boundaries. |
| StableIdentity.PrefixFree | src/stable_identity.rs:65-123 | Equal type streams with arbitrary suffixes come from structurally equal types and equal suffixes. |
| StableIdentity.AllPrefixFree | src/stable_identity.rs:84-116 | So do equal streams of equally long lists of types. |
| StableIdentity.StreamsAgreeExactly | src/stable_identity.rs:64-123 | Streams written from two arenas agree exactly when the types have the same structure, whatever the arena indices. |
| StableIdentity.DenotesOnce | src/stable_identity.rs:64-123 | An interned type stands for one structure. |
| StableIdentity.IdentityBuilder.constructor | src/stable_identity.rs:17-24 | A fresh identity holds the version and the domain, framed. |
| StableIdentity.IdentityBuilder.WriteBytes | src/stable_identity.rs:26-33 | Appends the field, framed. |
| StableIdentity.IdentityBuilder.WriteU64 | src/stable_identity.rs:39-41 | Appends eight little-endian bytes, framed. |
| StableIdentity.DigestFields | src/stable_identity.rs:56-62 | The stream of all fields, framed. |
| StableIdentity.WriteType | src/stable_identity.rs:65-123 | The stream grows by the code of the structure the type stands for. |
| Dispatch.StartedAtMostOnce | mycorrhiza_interop_helpers/RustUiDispatcher.cs:136-146 | Over every interleaving the completion is started at most once. |
| Dispatch.FalseMeansTaken | mycorrhiza_interop_helpers/RustUiDispatcher.cs:169-201 | When `TryDispatch` has returned false, or thrown out of the completion, the callback has been taken, and once all calls have ended it has been started exactly once. |
| Dispatch.FinalizedMeansStarted | mycorrhiza_interop_helpers/RustUiDispatcher.cs:148-159 | Likewise once the finalizer has run to its end. |
| Dispatch.UntakenCanBeFinalized | mycorrhiza_interop_helpers/RustUiDispatcher.cs:136-159 | A callback nobody took keeps its finalizer; the finalizer is suppressed before the callback starts. |
| Dispatch.FinalizerRunsOnce | mycorrhiza_interop_helpers/RustUiDispatcher.cs:143-159 | The finalizer can run exactly once, and not after it has been suppressed. |
| Dispatch.FalseMeansCancelledExactly | mycorrhiza_interop_helpers/RustUiDispatcher.cs:165-201 | After a false answer, once all calls are over, the callback was executed exactly when the exchange of some run precedes every cancel's in the schedule, and cancelled exactly otherwise. |
| Dispatch.FirstExchangeDecides | mycorrhiza_interop_helpers/RustUiDispatcher.cs:136-146 | The call that exchanges first decides, by its own flag, what the one start is. |
| Dispatch.RejectedBeforeAnyRun | mycorrhiza_interop_helpers/RustUiDispatcher.cs:193-200 | If no run has begun when the cancel takes its turn, the callback is never executed afterwards. |
| Dispatch.FalseAfterExecution | mycorrhiza_interop_helpers/RustUiDispatcher.cs:180-200 | A host that runs the work and then rejects it gets false for an executed callback. |
| Dispatch.RunKeepsInv | mycorrhiza_interop_helpers/RustUiDispatcher.cs:116-201 | In every reachable state the completion is in exactly one place. |
| Dispatch.UninterruptedIsARun | mycorrhiza_interop_helpers/RustUiDispatcher.cs:136-146 | One undisturbed call of `Complete` is a run of the state machine. |
| Dispatch.RustDispatchWork.Complete | mycorrhiza_interop_helpers/RustUiDispatcher.cs:136-146 | The method's new state is that run's. |
| Dispatch.RustDispatchWork.TryDispatch | mycorrhiza_interop_helpers/RustUiDispatcher.cs:169-201 | An undisturbed `TryDispatch` is a run of the state machine, whatever the host answers: work run here is started once and its exception is not passed on, queued work is left alone, everything else is cancelled. |
| Dispatch.RustDispatchWork.Finalize | mycorrhiza_interop_helpers/RustUiDispatcher.cs:148-159 | So is an undisturbed finalizer. |
| StreamLease.ReleasedExactlyOnce | mycorrhiza_interop_helpers/RustAsyncEnumerable.cs:26-49 | The release callback is invoked at most once, and exactly once when some release was called and all are over. |
| StreamLease.SingleConsumer | mycorrhiza_interop_helpers/RustAsyncEnumerable.cs:71-79 | At most one consumer ever passes the gate; one is refused only if another passed. |
| StreamLease.EnumeratorExactly | mycorrhiza_interop_helpers/RustAsyncEnumerable.cs:71-89 | There is an enumerator exactly when some consumer is enumerating. |
| StreamLease.BrokenMeansTaken | mycorrhiza_interop_helpers/RustAsyncEnumerable.cs:80-88 | A failed opening has released the lease before its exception gets out. |
| StreamLease.UntakenCanBeFinalized | mycorrhiza_interop_helpers/RustAsyncEnumerable.cs:26-49 | Until the callback is taken the finalizer can fire; it is suppressed only after the callback returned. |
| StreamLease.EndingReleases | mycorrhiza_interop_helpers/RustAsyncEnumerable.cs:80-132 | A last element, an exception (that of a release after the last element included), a disposal or a failed opening calls the release, and once that call is over the callback has been taken. |
| StreamLease.StaysAliveWhileMoving | mycorrhiza_interop_helpers/RustAsyncEnumerable.cs:104-120 | While elements keep coming and nobody disposes, finalizes or releases, the lease is kept. |
| StreamLease.StepKeepsInv | mycorrhiza_interop_helpers/RustAsyncEnumerable.cs:15-132 | Every step keeps the callback in one place and at most one consumer past the gate. |
| StreamLease.UninterruptedIsARun | mycorrhiza_interop_helpers/RustAsyncEnumerable.cs:26-36 | One undisturbed `Release` is a run of the state machine. |
| StreamLease.OpenedRuns | mycorrhiza_interop_helpers/RustAsyncEnumerable.cs:71-89 | The steps of an undisturbed opening all happen and end in the stated state. |
| StreamLease.MovedRuns | mycorrhiza_interop_helpers/RustAsyncEnumerable.cs:104-120 | Likewise for a move. |
| StreamLease.DisposedRuns | mycorrhiza_interop_helpers/RustAsyncEnumerable.cs:38-49 | Likewise for disposal and the finalizer, which can start exactly when there is an enumerator, and when neither suppressed nor run. |
| StreamLease.RustStreamLease.Release | mycorrhiza_interop_helpers/RustAsyncEnumerable.cs:26-36 | The method's new state is that run's. |
| StreamLease.RustAsyncEnumerable.GetAsyncEnumerator | mycorrhiza_interop_helpers/RustAsyncEnumerable.cs:71-89 | An undisturbed call is a run of the state machine: a second consumer is refused, a failed opening has released the lease. |
| StreamLease.RustAsyncEnumerable.MoveNextAsync | mycorrhiza_interop_helpers/RustAsyncEnumerable.cs:104-120 | So is this one: an exception and the last element release the lease, and a release that throws after the last element is called once more. |
| StreamLease.RustAsyncEnumerable.DisposeAsync | mycorrhiza_interop_helpers/RustAsyncEnumerable.cs:122-132 | And this one. |
| ManagedHandle.EveryRun | AssemblyUtilis/ManagedHandle.cs:9-37 | Over every run of creations and frees of held handles: handles are nonzero and read back their object, the free list is duplicate-free, in range and disjoint from them, table size is 1 + held + free and at most the peak plus 2, the next handle is nonzero and not held, and freeing a held handle never fails. |
| ManagedHandle.RunsGoOn | AssemblyUtilis/ManagedHandle.cs:9-37 | Every run can go on with any creation, and with the free of exactly the held handles; the peak is the most ever held. |
| ManagedHandle.SizeIsConserved | AssemblyUtilis/ManagedHandle.cs:9-37 | The size law in every consistent state. |
| ManagedHandle.CreateKeeps | AssemblyUtilis/ManagedHandle.cs:11-26 | A new handle is nonzero and not held already. |
| ManagedHandle.FreeKeeps | AssemblyUtilis/ManagedHandle.cs:27-37 | Freeing keeps every other handle. |
| ManagedHandle.HandleTable.Create | AssemblyUtilis/ManagedHandle.cs:11-26 | The constructor, in place. |
| ManagedHandle.HandleTable.FreeHandle | AssemblyUtilis/ManagedHandle.cs:27-37 | The free, in place. |
| ManagedHandle.HandleTable.GetRef | AssemblyUtilis/ManagedHandle.cs:38 | Returns the object the handle was created for. |
| SourcePatches.TransformedFileBytes | feasibility/stdlib_suite.py:1736-1774 | The loops apply the edits one after the other and stop at the first error. |
| SourcePatches.ApplyEditExactly | feasibility/stdlib_suite.py:1742-1773 | One edit, without counting: refused outside the root and with empty texts, nothing to do if found done, otherwise the marker occurs in one place only and the insertion goes behind it, or the replacement in its place. |
| SourcePatches.EditsAreSelected | feasibility/stdlib_suite.py:1786-1812 | A file gets exactly the patches with its path in their order, then exactly the rewrites with its path in theirs. |
| SourcePatches.EditsForOnce | feasibility/stdlib_suite.py:1786-1812 | That determines the edits. |
| SourcePatches.AppliedIsDone | feasibility/stdlib_suite.py:1742-1773 | After an edit its text is there, and it would be skipped, except for a rewrite that leaves its own marker. |
| SourcePatches.TwiceIsOnce | feasibility/stdlib_suite.py:1966-1974 | Transforming twice is transforming once when no edit undoes an earlier one or leaves a rewrite's marker. |
| SourcePatches.SecondPassIsIdleExactly | feasibility/stdlib_suite.py:1742-1773 | For all edits: the second pass changes nothing at any edit exactly when every edit is done in the first pass's result, or rewrites its one marker by the same text. |
| SourcePatches.GrowingTwiceExactly | feasibility/stdlib_suite.py:1742-1773 | For edits that never shorten a file, rewrites included, transforming twice is transforming once exactly when every edit is idle in that sense. |
| SourcePatches.PatchesTwiceExactly | feasibility/stdlib_suite.py:1742-1757 | For patches alone that holds exactly when every insertion survives. |
| SourcePatches.SplitInsertionIsRepeated | feasibility/stdlib_suite.py:1749-1757 | A patch that splits an earlier insertion makes the second pass insert again. |
| SourcePatches.AcceptedStaysInside | feasibility/stdlib_suite.py:1731-1733 | A path is refused exactly when it is absolute or has a component `..`; any other path only leads down from the root. |
| SourcePatches.UndoneEditCanBeHarmless | feasibility/stdlib_suite.py:1742-1773 | A rewrite that removes what a patch inserted: an edit is left undone, and the second pass still ends where the first did. |
| SourcePatches.ApplySourcePatches | feasibility/stdlib_suite.py:1828-1852 | Succeeds exactly when every target exists, stays inside the root and transforms; then every file is what all its edits make of it, and a file without edits is unchanged. |
| SourcePatches.PatchedTreeStream | feasibility/stdlib_suite.py:1777-1825 | Succeeds exactly when included files transform and targets are files, even outside the root; its stream is that of the files under all their edits. |
| SourcePatches.TreeStream | feasibility/stdlib_suite.py:598-625 | The stream of the included files. |
| SourcePatches.DigestAgreesWithPatching | feasibility/stdlib_suite.py:1777-1852 | A patched tree can be digested as patched, and the stream of `_patched_tree_digest` is the stream of the tree that `_apply_source_patches` leaves. |
| SourcePatches.PatchableExactly | feasibility/stdlib_suite.py:1777-1852 | A tree can be patched exactly when it can be digested as patched, no target escapes the root, and excluded targets transform. |
| SourcePatches.DigestibleExactly | feasibility/stdlib_suite.py:1777-1852 | Both accept the same trees when no target escapes the root or is excluded from the digest. |
| SourcePatches.StreamDeterminesTree | feasibility/stdlib_suite.py:598-625 | Two trees have the same stream exactly when they have the same included paths and contents. |
| SourcePatches.StreamIsTheTree | feasibility/stdlib_suite.py:598-625 | For paths as a listing gives them: exactly when they list the same paths with the same contents. |
| SourcePatches.ComponentsOfJoined | feasibility/stdlib_suite.py:598-625 | A path's components can be read back from its POSIX form. |

## Left out

- Process launching, file copying, locks, git, rustup and cargo calls, and the JSON and Markdown reports of the test runner: external processes. The apphost's output, its exit and the clock are inputs.
- Sorting of test names before batching and of tree listings: the order is an input; no property depends on it. Test names are byte strings as the file system encodes them.
- Runs that an exception aborts, other than the name that is too long to batch.
- `--exact` execution of the whole suite: one run per test, no recovery.
- Messages, durations, captured output and error texts of results and exceptions.
- Floating-point casts and whether a particular 128-bit operator exists in the base class library: 128-bit operators keep the value modulo 2^128.
- Whether the layouts, trait selections, vtable slots and drop glue that rustc reports are right.
- SHA-256 and the emitted adapter and type names: a digest is the stream that is hashed.
- Optimization fuel of the peephole: a rewrite that the fuel forbids leaves the cast as it is.
- `ToString` of records, attributes, nullability and PE metadata of generated classes.
- Block counts at the 32-bit limit, tracing, debug comments, type checking and source information in `add_fn`; a terminator that fails to lower aborts the compiler there.
- Visitors of the managed-storage check other than the two use counters: finite case lists over MIR places.
- C-variadic calls beyond the length check of `lower_call_args`; the layout of the tuple class.
- Garbage collection: the finalizer is a step that may happen at any time while it is not suppressed.
- Interleavings inside `TryDispatch` and the adapter as objects: their methods are shown to be runs when undisturbed, and their steps against other threads are the state machines `Dispatch` and `StreamLease`. Null checks of arguments.
- Which of several violations the managed-storage search reports: any report names a real one.
- SourcePatches.TwiceIsOnce: a sufficient condition on the first pass. What the second pass does edit by edit is exact for all edits (`SourcePatches.SecondPassIsIdleExactly`), and its result is exact for edits that never shorten a file (`SourcePatches.GrowingTwiceExactly`); with shortening rewrites it may remove what it inserted and end where it began (`SourcePatches.UndoneEditCanBeHarmless`).
- `ManagedHandle` under concurrent use without the lock: `GetRef` takes none.
