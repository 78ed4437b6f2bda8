# Praia runtime: a verified model

Praia is a scripting language whose runtime is written in C++. This project models the
parts of that runtime that hold a hard algorithm of their own, and proves what each is for.
One module stands for one component:

- `NodeTable.dfy`: the collector's linear-probing hash table, a class over an array of slots
  that refines a finite map over every run.
- `ObjectGraph.dfy`, `Reclamation.dfy`, `Collector.dfy`: the cycle collector. The heap is a
  map from addresses to objects with the fields the edge enumerator follows; a count is the
  owning edges plus the references from outside. Trial deletion, marking, clearing, the
  cascade of destructors and pruning run on the table of `NodeTable.dfy`. `CollectorCases.dfy`
  holds four heaps at the edge of its guarantees.
- `AsyncCopy.dfy`: the two recursive copiers that isolate an async task.
- `FileHandle.dfy`: the buffered file handle over a kernel file with arbitrary short reads
  and writes.
- `EnsureGuard.dfy`: the parser's check of `ensure` against the tree-walking executor;
  `StatementRules.dfy`: what each statement of that executor does, as rules without a step budget.
- `GrainLoader.dfy`: the module loader over arbitrary import graphs; `GrainAnalysis.dfy`: when
  a load can be lost, read off the text of a grain; `GrainCases.dfy`: small import graphs.
- `PostQueue.dfy`: the cross-thread queue of posted calls, as steps of a state machine.
- `Numbers.dfy`: mixed int64 and double order, key equality and hash, with rounding to
  nearest, ties to even, defined on the integers.
- `Utf.dfy`, `Base64.dfy`, `Query.dfy`, `Url.dfy`: the codecs and the URL functions.
- `EditDistance.dfy`, `NamedArgs.dfy`: typo suggestions and named-argument binding.
- `Wrappers.dfy`, `Arithmetic.dfy`, `Sequences.dfy`: what several of these share.

Objects the source updates in place are classes here, and loops are loops; each method is
proved against a function or relation on values, and the lemmas are about that.

Where the code does not meet what its documentation suggests, the code is kept and the exact
condition is proved:

- With bytes buffered, a seek from "current", and a seek that fails, do not act like an
  unbuffered file; with nothing buffered every seek does (`FileHandles.SeekAgrees`,
  `FileHandles.SeekPastReadAhead`).
- `numbersLess` misjudges one double, 2^63, against the 512 largest ints
  (`Numbers.NumbersLessIsExact`).
- A parameter past the 64th loses its default in a call with named arguments, one that throws
  included (`NamedArgs.BoundAsExpected`, `NamedArgs.ThrowPastTheMask`).
- A call whose needed default throws, or whose deferred expression exits, leaves the environment
  of the callee in place (`NamedArgs.Interpreter.MakeCall`,
  `NamedArgs.ThrowingDefaultLeavesScope`, `NamedArgs.ExitingDeferLeavesScope`).
- A grain that fails with a deferred expression pending that calls sys.exit leaves its path on
  the load stack and its scope in place, even where a `finally` turns the exit into an
  ordinary error (`GrainLoader.ImportRestoresExactlyWhen`,
  `GrainAnalysis.LeafCanBeLostExactlyWhen`, `GrainAnalysis.FinallyHidesLoss`).
- Objects no root reaches outlive a collection if and only if some reference cycle among them
  has no tracked member (`Collector.GcHeap.Collect`, `CollectorCases.UntrackedCycleOutlives`).
- A URL built without both scheme and host loses its userinfo, host and port
  (`Urls.AuthorityComesBackExactlyWhen`).
- Two names of two characters that share one are suggested for each other, which the comment
  above the threshold denies (`EditDistance.ShortNamesMatch`).
- The check of `ensure` rejects some statements that never complete: exactly those that divert
  without ending, on every path, in a jump it knows (`EnsureGuard.NeverCompletesExactlyWhen`,
  `EnsureGuard.CheckIsExact`, `EnsureGuard.RejectedThoughDiverting`).

`dafny verify dfyconfig.toml` checks the whole project.

## Model

| member | source | states |
|---|---|---|
| `NodeTables.MaskIsModulo` | src/gc_heap.cpp:171-177 | Masking an index with capacity - 1 is the remainder by the capacity, for every power of two. |
| `NodeTables.SomeCellIsEmpty` | src/gc_heap.cpp:175-188 | A table at most half full has an empty cell, whatever its keys. |
| `NodeTables.ProbeMeetsEmpty` | src/gc_heap.cpp:177-188 | From any start, wrapping round, the probe meets an empty cell within one lap, so every probe ends. |
| `NodeTables.FirstGapMeansAbsent` | src/gc_heap.cpp:191-198 | A key not found before the first gap of its probe is nowhere in the table. |
| `NodeTables.FillGap` | src/gc_heap.cpp:177-188 | Putting a new key in the gap keeps every other key findable, keeps keys unique and adds just that entry. |
| `NodeTables.NodeTable.Reset` | src/gc_heap.cpp:156-166 | Afterwards the table is empty, its capacity is a power of two that holds the expected entries half full, and the old array is reused exactly when it already has that capacity. |
| `NodeTables.NodeTable.Find` | src/gc_heap.cpp:191-198 | The slot of the key when the map holds it, null when not, also on a table that was never reset. |
| `NodeTables.NodeTable.Insert` | src/gc_heap.cpp:174-189 | The map is unchanged when the key is present; otherwise it gains the key with the given kind and refs, unmarked. Growth is invisible. |
| `NodeTables.NodeTable.Grow` | src/gc_heap.cpp:200-211 | Doubling the capacity keeps every entry: key, kind, refs and mark. |
| `NodeTables.Run` | src/gc_heap.cpp:154-211 | Over every sequence of reset, insert and find the table gives the answers of a finite map, and its invariant holds after each step. |
| `ObjectGraph.ClearedHasNoChildren` | src/gc_heap.cpp:273-378 | For each tracked type, the fields the sweep clears are all that the edge enumerator follows: a cleared object has no edges left. |
| `ObjectGraph.ChildrenCounted` | src/gc_heap.cpp:273-378 | For every class of object, the enumerator reports an owning reference exactly as often as a non-null pointer or value stands in the object's fields. |
| `ObjectGraph.OwningChildren` | src/gc_heap.cpp:273-378 | It reports an owning reference to an object if and only if one of the fields holds it, and never null. |
| `ObjectGraph.ReferringChildren` | src/gc_heap.cpp:273-378 | References that own nothing are exactly those of a VM closure to its upvalues and constants. |
| `ObjectGraph.OwnersSplit` | src/gc_heap.cpp:412-419 | Owning edges from two disjoint sets of nodes add up, edge by edge. |
| `ObjectGraph.ClosedHoldsReachable` | src/gc_heap.cpp:440-450 | A set that holds the roots and is closed under edges holds everything reachable. |
| `Reclamation.ClearKeepsHeap` | src/gc_heap.cpp:506-560 | Clearing an object and releasing its owning edges keeps every shared_ptr count exact. |
| `Reclamation.DestroyKeepsHeap` | src/gc_heap.cpp:564-569 | Destroying an object whose count is zero keeps every remaining count exact. |
| `Reclamation.SupportedSurvives` | src/gc_heap.cpp:564-569 | No cascade of destructions ever reaches a node that is held from outside or owned by a node that stays. |
| `Reclamation.OwnedSetHasCycle` | src/gc_heap.cpp:412-417 | A non-empty finite set in which every node is owned by another of the set has a reference cycle. |
| `Reclamation.LastingIsSupported` | src/gc_heap.cpp:564-569 | The objects that can keep each other alive from outside, or in a cycle, are one largest supported set. |
| `Reclamation.LeftIsLasting` | src/gc_heap.cpp:564-569 | An object the cascade leaves belongs to that set: nothing else survives. |
| `Reclamation.UncutCycleLasts` | src/gc_heap.cpp:484-569 | A reference cycle that passes through no cleared object survives the sweep whole. |
| `Reclamation.DeadDieExactlyWhen` | src/gc_heap.cpp:484-569 | Nodes held neither from outside nor by other nodes are all destroyed if and only if every reference cycle among them passes through a cleared object. |
| `Reclamation.LastingIsRemnant` | src/gc_heap.cpp:484-569 | What survives a sweep holds all that is referred to from outside, otherwise only owned objects, and all that a surviving callable, upvalue or ownership bag owns. |
| `Reclamation.OwnersBagBacks` | src/vm/vm.cpp:2898-2949 | An upvalue is there as long as the closure that refers to it, also when that closure has no ownership bag and is held by an upvalue of another closure's bag alone. |
| `Reclamation.SurvivorsTargetsLive` | src/gc_heap.cpp:484-569 | No reference dangles after a sweep, of those that own nothing either, if each of these led to a target that is left wherever its holder is. |
| `Reclamation.BackingSurvives` | src/gc_heap.cpp:484-569 | That condition holds again of the heap the sweep leaves. |
| `Reclamation.KeptPartIsClosed` | src/gc_heap.cpp:412-419 | The part of the marked and unscanned nodes that keeps itself alive holds everything it refers to, owned or not, and everything referred to from outside. |
| `Reclamation.KeptIsSupported` | src/gc_heap.cpp:486-569 | After the clearing, the marked nodes and the nodes outside the scan still hold each other up, when each root is held from outside the scan or reached from outside the heap; values owned only by a closed upvalue included. |
| `Collector.SeedAllCorrect` | src/gc_heap.cpp:424-438 | Seeding puts each tracked live object in the table and on the worklist once, with its own count. |
| `Collector.VisitEdgesCounted` | src/gc_heap.cpp:440-444 | Visiting the edges of one node subtracts each owning edge exactly once and enters unseen targets with their use count. |
| `Collector.ScanStep` | src/gc_heap.cpp:445-450 | One turn of the scan keeps: refs is the count less the owning edges from the nodes already done, and the worklist is the rest of the table. |
| `Collector.ScanEnd` | src/gc_heap.cpp:445-466 | When the worklist is empty, the table is exactly the graph reachable from the tracked objects, and refs is the count less every owning edge from it. |
| `Collector.RefsDecideExternal` | src/gc_heap.cpp:412-419 | refs is then the number of outside references plus owning edges from unscanned nodes; it is zero exactly when no reference comes from outside. |
| `Collector.MarkStep` | src/gc_heap.cpp:382-399 | One turn of the mark loop keeps: marked nodes are reachable from the roots, and a marked node off the stack has all its targets marked. |
| `Collector.MarkEnd` | src/gc_heap.cpp:392-399 | When the stack is empty, the marked nodes are exactly those reachable from the roots, over owning and other edges. |
| `Collector.GcHeap.MarkPhase` | src/gc_heap.cpp:468-482 | Marking the nodes of the root marker, the pinned values and the externally held nodes, in turn, marks exactly what they reach. |
| `Collector.UnpinUndoesPin` | src/gc_heap.cpp:125-152 | Unpinning a value undoes the latest pin of the same object, whatever other objects were pinned since. |
| `Collector.SweepOutcome` | src/gc_heap.cpp:486-573 | What a root reaches is never destroyed, if the root itself can be reached from outside the heap and references that own nothing are backed; what no root reaches is all destroyed if and only if every reference cycle in it passes through a tracked object; a cycle that does not survives whole. |
| `Collector.GarbageMeans` | src/gc_heap.cpp:468-504 | An object is emptied if and only if an entry made for it, and not for an earlier object at its address, is in the list, and no single root reaches it: nothing the root marker passes, nothing pinned, nothing referred to from outside the scanned graph. |
| `Collector.GcHeap.FindExternallyHeld` | src/gc_heap.cpp:420-466 | The loops over the node table compute the exact scan, and the result lists exactly the nodes whose remaining count is not zero. |
| `Collector.GcHeap.MarkNode` | src/gc_heap.cpp:382-390 | Marks a node once, pushing it on the first marking only; null is ignored. |
| `Collector.GcHeap.Mark` | src/gc_heap.cpp:468-482 | A node is marked exactly when it is reachable from the roots; the references taken by the scan are still held, one for each tracked live object. |
| `Collector.GcHeap.Sweep` | src/gc_heap.cpp:486-573 | Clears exactly the unmarked live tracked objects, releases, destroys what reaches zero and prunes the entries of the dead. |
| `Collector.GcHeap.Reclaim` | src/gc_heap.cpp:564-569 | The cascade of destructions leaves exactly the largest set that supports itself, and counts stay exact. |
| `Collector.GcHeap.Collect` | src/gc_heap.cpp:84-102 | One collection with exact counts and live roots: exactly the tracked objects no root reaches are emptied and all other contents are unchanged; what no root reaches is all destroyed if and only if every reference cycle in it has a tracked member; entries are the live ones. If references that own nothing are backed, none dangles afterwards and they are backed again, and what an anchored root reaches is not destroyed. A collection inside a collection changes nothing. |
| `Collector.GcHeap.Tune` | src/gc_heap.cpp:93-100 | The threshold doubles when nothing was collected and halves when something was, between 500 and 10000. |
| `CollectorCases.ClosedOverRootIsAnchored` | src/vm/vm.cpp:3097-3099 | A closed-over array, owned by its upvalue alone and passed by the root marker, is a live and anchored root. |
| `CollectorCases.NestedClosureIsBacked` | src/vm/vm.cpp:2898-2949 | The heap an async task leaves that returns a closure which captured another closure: a collection takes it, and its references are backed although the inner closure owns nothing. |
| `CollectorCases.UntrackedCycleOutlives` | src/gc_heap.cpp:484-573 | The exception exists: in a heap a collection takes, a closure, its task ownership bag and an upvalue closed over the closure, reached from a tracked array, survive although no root reaches them. |
| `CollectorCases.ScopeCycleDies` | src/gc_heap.cpp:84-102 | A scope, a function in it and the scope the function closed over, with nothing else referring to them: the collection leaves neither objects nor entries. |
| `Collector.GcHeap.PinValue` | src/gc_heap.cpp:125-131 | Adds the value to the registry unless it has no heap pointer. |
| `Collector.GcHeap.UnpinValue` | src/gc_heap.cpp:133-152 | Removes the most recent pin of the same object and no other, or nothing when there is none. |
| `AsyncCopy.Copier.DeepCopy` | src/interpreter.cpp:1669-1714 | On any heap, cyclic or aliased, terminates, leaves the caller's heap as it was and returns the image of the value; everything newly visited is copied in full. |
| `AsyncCopy.Copier.CopyEnv` | src/interpreter.cpp:1624-1635 | The same for environments: one fresh environment each, parents and variables copied. |
| `AsyncCopy.Copier.CopyCallable` | src/interpreter.cpp:1641-1667 | Functions and lambdas are cloned over a copied closure chain; classes, methods and natives are shared. |
| `AsyncCopy.Copier.CopyCall` | src/interpreter.cpp:1616-1727 | The task gets fresh globals, a callee and arguments that are images of the caller's, completely copied, with the caller's heap unchanged. |
| `AsyncCopy.OneImage` | src/interpreter.cpp:1616-1635 | A container or environment has at most one image. |
| `AsyncCopy.AliasingPreserved` | src/interpreter.cpp:1669-1703 | Two copied references to maps, arrays or instances are equal exactly when the originals were: aliases stay aliases and nothing is merged. |
| `AsyncCopy.TaskIsIsolated` | src/interpreter.cpp:1599-1617 | A path of any length from a copied node never enters a caller node of a kind that should have been copied. |
| `AsyncCopy.ResultIsIsolated` | src/interpreter.cpp:1669-1727 | From the copy of any value, only fresh nodes and shared kinds are reachable. |
| `AsyncCopy.TaskReadsTheSame` | src/interpreter.cpp:1616-1727 | By any path of map keys, indices, fields, variables, parents and closures, the task reads from its value what the caller reads from the original: the same scalar, shared object or function, or nothing on both sides. |
| `AsyncCopy.TaskReadsItsOwn` | src/interpreter.cpp:1616-1727 | By no such path does the task read a map, array, instance, environment or closure of the caller. |
| `FileHandles.FileHandle.Read` | src/interpreter_setup.cpp:1293-1332 | Returns the bytes and leaves the cursor of the unbuffered file, draining the buffer first, for every pattern of short reads; it fails with a kernel error if and only if a kernel call failed, and then has only moved the cursor. |
| `FileHandles.FileHandle.ReadLine` | src/interpreter_setup.cpp:1334-1353 | The line up to the newline, the trailing part at end of file, or nil when there is none, as on the unbuffered file; it fails if and only if a kernel call failed. |
| `FileHandles.FileHandle.Write` | src/interpreter_setup.cpp:1355-1376 | Writes at the logical cursor, through any short writes; it fails if and only if a kernel call failed, and then a prefix has been written. |
| `FileHandles.FileHandle.Seek` | src/interpreter_setup.cpp:1378-1416 | Drops the buffer and seeks from the kernel offset, which is ahead of the cursor by the bytes buffered. |
| `FileHandles.FileHandle.Tell` | src/interpreter_setup.cpp:1418-1433 | Reports the logical cursor and moves nothing. |
| `FileHandles.FileHandle.RefillReadBuf` | src/interpreter_setup.cpp:1225-1240 | One chunk lands in the buffer without moving the logical cursor, or end of file is recorded. |
| `FileHandles.FileHandle.SyncBeforeWrite` | src/interpreter_setup.cpp:1247-1259 | The kernel offset is brought back to the logical cursor and the buffer emptied. |
| `FileHandles.SeekAgrees` | src/interpreter_setup.cpp:1404-1415 | A seek agrees with the unbuffered file if and only if nothing is buffered, or it is from start or end with a target not below zero. |
| `FileHandles.OverwriteTwice` | src/interpreter_setup.cpp:1360-1374 | Two adjacent partial writes are one write of the joined data, past the end of the file included. |
| `FileHandles.LineLengthIs` | src/interpreter_setup.cpp:1338-1344 | A line without newline, ended by one or by the end, is what the reference calls the first line. |
| `FileHandles.LinesAreTheRest` | src/interpreter_setup.cpp:1334-1353 | The lines readLine returns up to nil hold no newline, and with a newline behind each they are what was left of the file, up to a missing newline at its end. |
| `FileHandles.ReadsJoin` | src/interpreter_setup.cpp:1293-1332 | Two reads are one read of both lengths. |
| `FileHandles.WrittenIsRead` | src/interpreter_setup.cpp:1355-1376 | Bytes written are read back from where they were written; no other byte changes, and a gap reads as zeros. |
| `FileHandles.SeeksMove` | src/interpreter_setup.cpp:1378-1416 | A seek to the start makes everything readable, one to the end makes writes append, one back by what was read undoes the read, one before the start fails. |
| `FileHandles.Run` | src/interpreter_setup.cpp:1207-1433 | Any sequence of read, readLine, write, tell and seek gives the results and the bytes of an unbuffered file with one cursor, and gives them all if and only if no kernel call failed, if each seek agrees given what was then read ahead; so whenever no seek that follows a readLine, with no write or seek between, is from current or has a target below zero. |
| `FileHandles.SeekPastReadAhead` | src/interpreter_setup.cpp:1404-1415 | The exception exists: after the first line of a file of two, a seek by zero from current goes behind the second. |
| `EnsureGuard.TerminatorNeverFallsThrough` | src/parser.cpp:676-702 | If the syntactic check holds of a statement, no execution of it completes normally: any state, any expression values, any number of steps. |
| `EnsureGuard.EnsureIsAGuard` | src/interpreter.cpp:894-914 | An accepted ensure completes normally if and only if its condition evaluated to a truthy value, or in the let form to a value other than nil, which is bound. |
| `EnsureGuard.EnsureLetBinds` | src/interpreter.cpp:899-912 | After an ensure let the name holds a value other than nil. |
| `EnsureGuard.CodeAfterEnsureIsGuarded` | src/parser.cpp:734-743 | In a block, code after an ensure runs only from a state in which the guard held; otherwise the block ends as the else branch does. |
| `EnsureGuard.MoreFuelSameResult` | src/interpreter.cpp:458-472 | The step budget only bounds how long an execution is followed: once finished, its result does not depend on it. |
| `EnsureGuard.NeverCompletesExactlyWhen` | src/interpreter.cpp:862-914 | For every statement, loops, try and finally included: no execution completes normally if and only if it diverts, which is read off the statement: a jump or export, a block with a diverting statement, an if that diverts on every branch, a try whose finally diverts or whose tried block and handler both do. |
| `EnsureGuard.CheckIsExact` | src/parser.cpp:676-702 | The check tells whether a statement never completes normally, if and only if it is not a diverting statement that the check rejects. |
| `EnsureGuard.StraightIsExact` | src/parser.cpp:676-702 | So it is exact on statements without export and try in which nothing follows a diverting statement in its block. |
| `EnsureGuard.WayThrough` | src/interpreter.cpp:550-556 | For every statement that does not divert, builds an execution that completes normally. |
| `EnsureGuard.RejectedThoughDiverting` | src/parser.cpp:684-701 | The exceptions exist: a block with an expression after a return, an export, and a try that returns on both ways never complete and are rejected. |
| `StatementRules.JumpRules` | src/interpreter.cpp:845-861 | return, throw, break, continue and export raise their signal, with the value of their expression. |
| `StatementRules.SimpleRules` | src/interpreter.cpp:554-608 | Expressions, lets, declarations and defers complete; what they bind is found under the name in the current environment, and nothing else changes. |
| `StatementRules.RaisingRule` | src/interpreter.cpp:554-640 | A statement whose first expression raises ends with that signal. |
| `StatementRules.BlockRule` | src/interpreter.cpp:458-472 | A block runs in a new environment and leaves the old one current, however it ends. |
| `StatementRules.SeqRules` | src/interpreter.cpp:458-472 | Statements run in order up to the first that does not complete. |
| `StatementRules.IfRule` | src/interpreter.cpp:614-631 | The branch behind the first true condition runs, else the else branch; without one the statement completes. |
| `StatementRules.EnsureRule` | src/interpreter.cpp:894-914 | An ensure whose condition does not hold ends as its else branch; otherwise it completes, with its name bound to a value other than nil. |
| `StatementRules.WhileTurn` | src/interpreter.cpp:632-641 | A loop with a false condition is over; otherwise its body runs and, if it completed or continued, the loop again from there. |
| `StatementRules.WhileRule` | src/interpreter.cpp:632-641 | break completes the loop; every other signal passes through it. |
| `StatementRules.ForTurn` | src/interpreter.cpp:661-768 | Each turn binds the variable to the next value in an environment of its own; the loop ends with the iterator. |
| `StatementRules.TryPasses` | src/interpreter.cpp:862-893 | A tried block that completes, or raises anything but a thrown value or a runtime error, does not enter the handler; finally runs in any case and decides how the whole ends only if it does not complete. |
| `StatementRules.TryCatches` | src/interpreter.cpp:862-893 | A thrown value and a runtime error enter the handler with the error variable bound to the value; the whole ends as the handler does, up to finally. |
| `StatementRules.ThrownIsCaught` | src/interpreter.cpp:862-893 | A throw in a try with an empty handler completes, whatever is thrown. |
| `GrainLoader.NoDupBounded` | src/interpreter.cpp:258-261 | A load stack without repetition is bounded by the number of files, the measure by which loading terminates. |
| `GrainLoader.CircularImportMessage` | src/grain_resolve.h:195-209 | The text is the loading chain from the first occurrence of the path on, each path as displayed and followed by an arrow, closed by the path. |
| `GrainLoader.Interpreter.LoadGrain` | src/interpreter.cpp:242-261 | For every import graph and every run of the files: terminates, the load stack never repeats a path, and outcome and state are those of the reference semantics. |
| `GrainLoader.ImportsWithoutLoading` | src/interpreter.cpp:242-281 | An unresolved or repeated import, one of a grain still being loaded and one without readable source throw and change nothing; a cached one succeeds and is recorded; after success the grain is cached. |
| `GrainLoader.ImportRestoresExactlyWhen` | src/interpreter.cpp:318-347 | Environment, file, syntax-tree owner and load stack are restored if and only if no grain body run meanwhile failed with a deferred expression that then exited; then the imports gain the path on success only. |
| `GrainLoader.LoadRestoresExactlyWhen` | src/interpreter.cpp:286-347 | Loading any grain restores everything if and only if the imports in its body and in its defers do, and it is not the case that the body fails and a defer then exits. |
| `GrainLoader.QuietFilesRestore` | src/interpreter.cpp:302-337 | If no deferred expression of any file holds a sys.exit or an import, every import restores everything, whatever the grains do. |
| `GrainLoader.FailedLoadIsNotCached` | src/interpreter.cpp:325-347 | After a load the grain is cached, and listed as completed, if and only if the load succeeded; that is, if the body did not fail and no defer exited. |
| `GrainLoader.FailedImportRunsAgain` | src/interpreter.cpp:242-347 | Importing a grain again that has failed runs its body again. |
| `GrainCases.DiamondRunsOnce` | src/interpreter.cpp:242-254 | A grain that the script and another grain import runs once, and importing it in both is no repetition. |
| `GrainCases.RepeatedImportThrows` | src/interpreter.cpp:245-247 | Importing a grain twice in one file throws. |
| `GrainCases.RingThrows` | src/interpreter.cpp:256-259 | Two grains that import each other both fail; nothing is cached and the load stack is empty again. |
| `GrainCases.ExportSucceeds` | src/interpreter.cpp:318-337 | A grain that ends with export succeeds; one that throws, exits or returns at its top level fails and its importer ends the same way. |
| `GrainCases.LastDeferRunsFirst` | src/interpreter.cpp:302-316 | Deferred expressions run last first. |
| `GrainCases.DeferErrors` | src/interpreter.cpp:302-316 | An error in a deferred expression is swallowed, an exit gets out. |
| `GrainAnalysis.LoadIsLostExactlyWhen` | src/interpreter.cpp:318-337 | Loading a grain that imports nothing leaves its path on the stack if and only if its body fails and one of the expressions it deferred then exits. |
| `GrainAnalysis.LeafCanBeLostExactlyWhen` | src/interpreter.cpp:302-337 | Read off the text of a grain that imports nothing: some run of it loses the load if and only if its statements can fail with a deferred expression pending that can reach sys.exit. |
| `GrainAnalysis.ExitingDeferLosesLoad` | src/interpreter.cpp:302-337 | The exception exists: a grain that defers sys.exit and throws is left on the load stack, and stays the current file. |
| `GrainAnalysis.FinallyHidesLoss` | src/interpreter.cpp:302-337 | A finally that throws hides the exit: an import that ends in an ordinary throw leaves the path of its grain on the load stack. |
| `GrainLoader.Interpreter.StartGrain` | src/interpreter.cpp:286-301 | Entering a grain pushes its path, clears the imports and opens an environment and a frame for defers. |
| `GrainLoader.Interpreter.FinishGrain` | src/interpreter.cpp:338-347 | Leaving pops the path, restores file, environment, imports and owner and, on success only, caches the grain. |
| `GrainLoader.Interpreter.RunBody` | src/interpreter.cpp:318-337 | The body, then its defers once, last first, an error in them swallowed and an exit let through; the load is lost exactly when the body failed and its defers exited. |
| `GrainLoader.RunScript` | src/interpreter.cpp:242-349 | Over a whole run no grain completes twice, the grains cached are exactly those with a load that neither failed nor exited, one path is left on the load stack for each lost load, and none if nothing deferred in script or files can exit. |
| `PostQueue.StepKeepsFlag` | src/interpreter.cpp:476-494 | At every point of both critical sections the flag says what it must about the queue; when the mutex is free it equals queue-nonempty. |
| `PostQueue.StepKeepsLocks` | src/interpreter.cpp:476-494 | The mutex is held by exactly the thread inside its critical section, over all interleavings. |
| `PostQueue.StepKeepsConserved` | src/interpreter.cpp:487-528 | Every step keeps: started, waiting and queued calls together are the posted calls, each once. |
| `PostQueue.StepKeepsBatches` | src/interpreter.cpp:489-527 | Every step keeps: each activation holds calls of its own batch, and those started before come earlier in post order. |
| `PostQueue.RunKeepsInvariant` | src/interpreter.cpp:476-528 | All of this holds in every state of every run, with any number of producers and re-entered drains. |
| `PostQueue.PostedCallsAreConserved` | src/interpreter.cpp:476-528 | In every reachable state each posted call is queued, in flight or started exactly once, the flag equals queue-nonempty when the mutex is free, and each batch starts in post order. |
| `PostQueue.NothingIsLost` | src/interpreter.cpp:487-528 | When the engine is idle and the flag is down, every posted call has been started, once. |
| `PostQueue.CanRunEmpty` | src/interpreter.cpp:476-528 | From every reachable state, whatever producers, drains and callbacks are in progress, steps lead to one in which every posted call has been started once, no call is left, the flag is down and the mutex is free: nothing can get stuck. |
| `Numbers.RoundMonotone` | src/value.h:234-234 | Converting an int to a double never reverses an order, ties to even included. |
| `Numbers.RoundIsRepresentable` | src/value.h:250-253 | The conversion of an int64 is a double between -2^63 and 2^63. |
| `Numbers.RepresentableIsExact` | src/value.h:238-257 | An int that is a double converts to itself. |
| `Numbers.RoundsUpToTwo63` | src/value.h:243-249 | The ints that convert to 2^63 are exactly those from 2^63 - 512 on. |
| `Numbers.NumbersLessIsExact` | src/value.h:221-235 | The comparison decides the exact real order of all int64s and doubles, infinities and NaN included, except exactly the double 2^63 against an int that rounds up to it. |
| `Numbers.LargestIntAgainstTwo63` | src/value.h:229-234 | The exception exists: 2^63 - 1 is less than the double 2^63 and is not reported so. |
| `Numbers.KeyEqualIsExact` | src/value.h:184-215 | Key equality holds exactly when both numbers mean the same real, infinity or NaN; signed zeros are one key, 2^63 equals no int. |
| `Numbers.UserEqualIsExact` | src/value.h:184-219 | The == of a program holds exactly when both numbers mean the same, except that NaN equals nothing. |
| `Numbers.KeyEqualIsEquivalence` | src/value.h:281-287 | Key equality is reflexive, symmetric and transitive across ints and doubles. |
| `Numbers.EqualKeysHashEqual` | src/value.h:237-262 | Equal keys hash equal, whatever the two underlying hash functions are. |
| `Numbers.HashOfMeaning` | src/value.h:237-262 | The hash is that of the double the number is equal to, if there is one, and else that of the int; NaN hashes to 0. |
| `Utf.AcceptsIsUtf8Char` | src/encoding.cpp:55-87 | One turn's tests accept exactly the characters of section 4 of RFC 3629, and the code point they assemble encodes back to the same bytes. |
| `Utf.WalkUtf8` | src/encoding.cpp:50-91 | Accepts exactly the byte strings of section 4 of RFC 3629 and yields the code points whose UTF-8 form is the input. |
| `Utf.EncodeUtf16` | src/encoding.cpp:130-153 | Succeeds exactly on UTF-8 and yields the UTF-16 form of the same code points, section 2.1 of RFC 2781, in the given byte order. |
| `Utf.DecodeUtf16` | src/encoding.cpp:193-231 | Succeeds exactly on UTF-16 of scalar values, section 2.2 of RFC 2781, and yields the UTF-8 form of the same code points. |
| `Utf.EncodedIsChar` | src/unicode.cpp:4-22 | The encoding of every scalar value is one character of the grammar, and assembling it gives the value back. |
| `Utf.SameTextIsBijective` | src/encoding.cpp:130-153 | Each text has one UTF-16 form in a given byte order, and each such form is of one text. |
| `Utf.EncodeThenDecode` | src/encoding.cpp:193-231 | Decoding undoes encoding on every byte string encode accepts; the others are rejected. |
| `Utf.DecodeThenEncode` | src/encoding.cpp:130-153 | Encoding undoes decoding on every byte string decode accepts; the others are rejected. |
| `Utf.KnownUtf8` | src/unicode.cpp:4-22 | The first example of section 7 of RFC 3629. |
| `Utf.KnownUtf16` | src/encoding.cpp:130-153 | U+12345, the example of section 4 of RFC 2781, in both byte orders. |
| `Base64.WrapKeepsLowBits` | src/interpreter_setup.cpp:2839-2846 | Wrapping to 32 bits leaves all bits the loop will still use as they were. |
| `Base64.RoomBelow` | src/interpreter_setup.cpp:2841-2841 | Adding the next bits to the shifted, wrapped accumulator does not overflow. |
| `Base64.TopBits` | src/interpreter_setup.cpp:2843-2846 | The shift and mask of the accumulator are the first pending bits, and the rest stay pending. |
| `Base64.LastBits` | src/interpreter_setup.cpp:2848-2848 | The last digit is the pending bits filled up with zeros. |
| `Base64.Encode` | src/interpreter_setup.cpp:2832-2851 | The text of sections 4 and 5 of RFC 4648: the bits of the octets, zero-filled, in groups of six, padded to a multiple of four in the first alphabet only. |
| `Base64.Decode` | src/interpreter_setup.cpp:2853-2880 | For every input: the whole octets in the bits of its digits, other characters skipped, nothing read from the first '=' on. |
| `Base64.CutJoined` | src/interpreter_setup.cpp:2840-2848 | Cutting a string of bits into groups undoes joining them, whatever short tail follows. |
| `Base64.DecodedOfEncoded` | src/interpreter_setup.cpp:2832-2932 | Decoding undoes encoding for every byte string, in both alphabets. |
| `Base64.EncodedLength` | src/interpreter_setup.cpp:2848-2849 | Four characters for every three octets begun; without padding, as many as the bits need. |
| `Base64.OthersAreSkipped` | src/interpreter_setup.cpp:2869-2871 | A foreign character in front of the first '=' changes nothing; from the first '=' on nothing counts. |
| `Base64.AlphabetTable` | src/interpreter_setup.cpp:2832-2837 | The digits are those of tables 1 and 2 of RFC 4648. |
| `Base64.EncodeThenDecode` | src/interpreter_setup.cpp:2832-2932 | The two loops, run one after the other, return the input, although the accumulator wraps. |
| `EditDistance.LevChange` | src/string_distance.h:27-38 | Replacing at most one character by at most one, anywhere in a string, changes the recurrence by at most one. |
| `EditDistance.LevIsDistance` | src/string_distance.h:16-40 | The recurrence is the least number of single-character edits over all edit scripts: a script of that length exists and no shorter one. |
| `EditDistance.EditDistance` | src/string_distance.h:16-40 | The two-row table returns that minimum for strings within the limit and INT_MAX beyond it. |
| `EditDistance.FilterIsSafe` | src/string_distance.h:61-65 | A name within the threshold is never rejected by the length filter. |
| `EditDistance.ClosestCallable` | src/string_distance.h:56-71 | Returns the first candidate of the unfiltered scan, by edit scripts, and nothing exactly when there is none. |
| `EditDistance.ThresholdCases` | src/string_distance.h:43-49 | Names of more than three characters may be two edits away, shorter ones one; both examples the source gives are suggested. |
| `EditDistance.ShortNamesMatch` | src/string_distance.h:43-49 | On and Or are suggested for Ok, which the comment above the threshold denies. |
| `EditDistance.LimitCases` | src/string_distance.h:16-20 | Names of 64 characters are compared, longer ones never suggested. |
| `NamedArgs.ReorderNamedArgs` | src/interpreter.cpp:122-175 | Each argument goes to its position, the rest are nil, and the mask has exactly the taken positions below 64; else the error of the first argument that fits nowhere, for any interleaving. |
| `NamedArgs.RejectedExactlyWhen` | src/interpreter.cpp:137-167 | A call with positional arguments first is rejected if and only if there are too many of them, or a name is unknown, repeated, or already taken by position. |
| `NamedArgs.EveryArgumentIsBound` | src/interpreter.cpp:137-167 | In an accepted call every argument reaches a parameter, a named one the first parameter of that name. |
| `NamedArgs.BoundAsExpected` | src/interpreter_callables.cpp:102-116 | A parameter is bound to its argument, an explicit nil kept, else its default is evaluated and may throw, else it is nil; this fails if and only if the parameter is past the 64th, left out of a call with names, and has a default that would not give nil: then the parameter is nil and the default never evaluated. |
| `NamedArgs.PastTheMask` | src/interpreter_callables.cpp:104-106 | The exception exists: the last of 65 parameters is nil, not its default. |
| `NamedArgs.ThrowPastTheMask` | src/interpreter_callables.cpp:104-106 | Nor is its default evaluated: one that throws goes unnoticed and the call returns. |
| `NamedArgs.ScopeHolds` | src/interpreter_callables.cpp:107-122 | The body finds the last parameter of each name under it, and the surplus arguments under the rest name, which wins over a parameter of that name. |
| `NamedArgs.Interpreter.MakeCall` | src/interpreter.cpp:1362-1387 | Ends as described at CallEndsAs; the mask is all ones again after return and throw; every body started found it all ones; the callee's scope is the expected one; the environment is restored except exactly when a needed default throws or a deferred expression exits, in the callee or in a call a native lets through. |
| `NamedArgs.CallEndsAs` | src/interpreter_callables.cpp:93-158 | A refused call throws its error; else the first default that throws decides; else sys.exit if an expression deferred up to there calls it; else the first statement that throws uncaught; else the call returns the value of the body, nil if it falls off its end. A native ends with its first call that throws, else with its result. |
| `NamedArgs.EndsAsOne` | src/interpreter_callables.cpp:93-158 | And it ends in no other way. |
| `NamedArgs.LeavesScopeExactlyWhen` | src/interpreter_callables.cpp:93-158 | The scope of the callee stays in place if and only if a needed default throws or an expression deferred by the body exits, or behind a native when the call that ends it is of that kind. |
| `NamedArgs.RestIsSurplus` | src/interpreter_callables.cpp:117-122 | The rest parameter holds the arguments behind the last parameter, in order. |
| `NamedArgs.CallRefusedExactlyWhen` | src/interpreter.cpp:1362-1387 | Without names: too many arguments for a function without a rest parameter, the wrong number for a native. With names: an argument that fits nowhere, or a native without names or with the wrong number of them. |
| `NamedArgs.RefusalCases` | src/interpreter.cpp:137-167 | Which error each kind of refused call gets, on a function of two parameters. |
| `NamedArgs.ThrowingDefaultLeavesScope` | src/interpreter_callables.cpp:102-116 | The first exception exists: a call whose one parameter has a default that throws. |
| `NamedArgs.ExitingDeferLeavesScope` | src/interpreter_callables.cpp:125-142 | The second exception exists: a call whose body defers sys.exit. |
| `NamedArgs.Interpreter.CallBody` | src/interpreter_callables.cpp:93-158 | A call in a fresh scope: ends as described at CallEndsAs, leaves the expected scope, and the defer stack is as before. |
| `NamedArgs.Interpreter.RunDefers` | src/interpreter_callables.cpp:125-142 | The function's frame is popped and no other; errors of deferred expressions are swallowed, and an exit gets out if and only if one of them calls sys.exit. |
| `Query.PercentEncode` | src/interpreter_setup.cpp:3163-3176 | The loop computes the encoding of the whole string, byte by byte. |
| `Query.PercentDecode` | src/interpreter_setup.cpp:3177-3204 | The loop computes the decoding of every string, broken escapes included. |
| `Query.DecodedOfEncoded` | src/interpreter_setup.cpp:3163-3204 | Percent-decoding undoes percent-encoding for every byte string. |
| `Query.EncodedIsPlain` | src/interpreter_setup.cpp:3166-3175 | Encoded text holds unreserved characters of section 2.3 of RFC 3986 and '%' only. |
| `Query.UnreservedSet` | src/interpreter_setup.cpp:3166-3175 | Letters, figures and the four characters of section 2.3 of RFC 3986 stand as they are; every other character becomes a percent sign and two digits. |
| `Query.HexTable` | src/interpreter_setup.cpp:3166-3204 | The digits written are those of base 16 with capital letters; small letters are read too, and nothing else. |
| `Query.PlusIsSpace` | src/interpreter_setup.cpp:3177-3204 | A plus is read as a space, in every text. |
| `Query.EscapesAreRead` | src/interpreter_setup.cpp:3177-3204 | Escapes in either case are read, broken ones stay. |
| `Query.BuildQuery` | src/interpreter_setup.cpp:3237-3280 | The text of the pairs the entries stand for, nil skipped and arrays spread; throws exactly on a value without a wire form. |
| `Query.BuildFailsExactlyWhen` | src/interpreter_setup.cpp:3237-3265 | Building throws if and only if a value is no text, nil or array, or an array holds a nested one. |
| `Query.EntriesJoin` | src/interpreter_setup.cpp:3271-3279 | The pairs of two lists of entries are those of the first, then those of the second. |
| `Query.SinglePairs` | src/interpreter_setup.cpp:3247-3259 | A text is one pair, nil none, an array one pair for each text in it, nil skipped. |
| `Query.ParseQueryToPairs` | src/interpreter_setup.cpp:3289-3311 | Splits at ampersands, leaves out empty segments, cuts each at its first '=' and decodes both sides. |
| `Query.QueryRules` | src/interpreter_setup.cpp:3289-3311 | The text up to the first ampersand is a segment, left out if empty, and the rest is parsed in the same way. |
| `Query.SegmentRules` | src/interpreter_setup.cpp:3300-3308 | A segment is cut at its first '='; without one it is a key with an empty value. |
| `Query.ParsedOfQueryText` | src/interpreter_setup.cpp:3289-3311 | Recovers every list of pairs of byte strings from its query text. |
| `Query.BuildThenParse` | src/interpreter_setup.cpp:3237-3311 | Building and parsing run one after the other give back the pairs, or the same failure. |
| `Urls.PortOfDecimal` | src/url.cpp:21-33 | A port in range that is printed in decimal is read back. |
| `Urls.HostHeaderRoundTrip` | src/url.cpp:161-171 | The Host header is read back by the host part of parse: bracketed address literals, names, ports. |
| `Urls.AuthorityRoundTrip` | src/url.cpp:102-152 | A userinfo, '@' inside it included, and a host are separated again at the last '@'. |
| `Urls.CutsUndoJoins` | src/url.cpp:53-68 | The cuts at the first '#' and the first '?' undo the joins of build. |
| `Urls.SchemeSplits` | src/url.cpp:74-82 | A valid scheme is found whole in front of its colon. |
| `Urls.ParseUndoesBuild` | src/interpreter_setup.cpp:3374-3488 | url.parse undoes url.build for every well-formed component set of section 3 of RFC 3986, up to this: the scheme comes back in lower case, a path after a host with a slash in front, an address literal without its brackets, the fragment still encoded; a default port is dropped, and so is an authority given without both scheme and host. |
| `Urls.AuthorityComesBackExactlyWhen` | src/interpreter_setup.cpp:3404-3444 | Userinfo, host and port are recovered if and only if scheme and host were both given, or no part of the authority was. |
| `Urls.AuthorityIsLost` | src/interpreter_setup.cpp:3404-3444 | The exception exists: a host without a scheme, and a userinfo and port without a host, are gone. |
| `Urls.BuildThenParse` | src/url.cpp:48-159 | The two procedures run one after the other return the expected components, with the same differences. |
| `Urls.KnownUrl` | src/interpreter_setup.cpp:3374-3488 | A URL with every part, an address literal among them: the text built and what it is parsed to. |
| `Urls.ControlIsRefused` | src/url.cpp:39-44 | A NUL, carriage return or line feed anywhere refuses the text. |
| `Urls.PortRules` | src/url.cpp:21-33 | A port is accepted if and only if it is one to five figures and at most 65535, and which error each other one gets. |
| `Urls.HostRules` | src/url.cpp:119-152 | More than one colon without brackets, a bracket left open, and text behind one are refused with their errors. |

## Left out

- The bytecode VM, the compiler and the builtins: their source is not part of this model.
- `collectIfNeeded`, the environment variable of the stress mode and its abort on a negative
  count, which the exact scan excludes (`Collector.RefsDecideExternal`).
- Sizes: `size_t` and pointer-width overflow, and the narrowing of a size to `int` in the edit
  distance, the arities and the parameter counts. Only the base64 accumulator, the int64s and
  the 64-bit mask have their machine width.
- Reuse of an address by a later allocation: a destroyed object's address is not given to
  another object within one collection.
- What destructors and resumed generator fibers do besides releasing references: order of
  destruction, `ownedResources`, fiber stacks and external deleters.
- The order in which a map, a set or the entries of an environment are traversed is a
  sequence given with the object; the source leaves it unspecified.
- A closure's references to upvalues do not own them. That none dangles after a collection, and
  that what a root reaches survives, is proved for heaps where each such upvalue is left wherever
  the closure is, whichever tracked objects are emptied: because it is held from outside the
  heap, as by the list of all upvalues of a VM, or by a task's ownership bag that the closure, or
  what alone owns the closure, depends on. Otherwise the closure can outlive its upvalue in the
  source too; the rest of `Collector.GcHeap.Collect` is proved of those heaps as well.
- All unmarked objects are cleared before any is destroyed, because the scan and the list of
  objects to collect hold them; destruction is then a cascade in any order.
- Native functions' captured values cannot be enumerated; as in the source they count as
  references from outside.
- In `AsyncCopy`, the clone of a callable is allocated after its environment is copied, and the
  call of the task itself is not run.
- FileHandle modes other than r+ and w+, flush, the retry after an interrupted system call,
  which is folded into one kernel call, other writers of the file, and error texts.
- The executor of `EnsureGuard` is a function on values with a step budget, on which a finished
  result does not depend; expressions, loop iterators and interrupts are answers of an oracle
  that may depend on the state. The counting loop and the for-in loop are one
  kind of statement, and so are declarations of functions, classes, enums and imports, which
  bind a name.
- Path lookup on disk, lexing and parsing of a grain are given functions; what a grain's
  statements do besides importing, exporting, catching and deferring is a sequence of choices
  given with the run. A grain's functions and loops stand unrolled in its statements; the defer
  frame that a function call opens is not modelled there, so a block holds no defers of its own.
- Grains that import others have their lost loads characterised by what the loads did
  (`GrainLoader.ImportRestoresExactlyWhen`) and excluded by a condition on the files
  (`GrainLoader.QuietFilesRestore`); the condition on the text that is exact is for grains that
  import nothing.
- The post queue's fairness: nothing is claimed about when the engine drains, only that it
  always can. Memory ordering of the atomics is sequential.
- The encodings utf-8 as identity, latin-1 and ascii, encoding names, and error offsets.
- The order in which deferred expressions run, except that the first to exit ends them.
- In `NamedArgs`, methods and generator functions bind their parameters by the same loop and are
  not repeated; the stack of call frames, spread arguments, the pending mask of an async task,
  and natives that swallow an error raised by a callback.
- For URL components that are not well formed nothing is claimed about the text built. A map
  key of the query that is no string is folded into a bad query.
- JSON, YAML, HTTP, sockets, processes, SQLite, terminal, signals, plugins, fibers, grapheme
  and locale functions, the lexer, the printer, the REPL and the test runner.
