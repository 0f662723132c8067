# Verified model of the module loader, the playground bundler, the RPC streams and the keyring store

Dafny models of four stateful parts of the repository, with proofs about every input, every run and
every interleaving. `dafny verify dfyconfig.toml` checks the whole project.

**The AMD module manager** (`src/vs/loader.js`). `LoaderSpec.dfy` says on values what each operation
does to the tables; a run is any sequence of interned names, definitions and load failures, for any
dependency graph. A factory returns, or throws and is caught (`catchError`; what it throws may be falsy
and count as nothing, and the handler an error is reported to may throw in turn), or throws, as by
default, out of everything on the stack, so that the loops over waiters there are abandoned half-way.
Errorbacks may throw, too: `LoaderFlood.dfy` says how far a load failure then gets.
`LoaderInvariant.dfy` states the counting invariant that the recursion of `_onModuleComplete` keeps
while callers further up still hold waiter lists they have only half processed (the multiset
`pending`), together with the acyclicity of the wait-for graph. `LoaderSteps.dfy` carries it through
every operation and run, `LoaderTheorems.dfy` draws the conclusions. `LoaderRuns.dfy` says of the events
alone what is defined and requested, and `LoaderErrors.dfy` who hears of a script that fails to load or of
a factory that throws. `LoaderStranding.dfy` and
`LoaderExceptions.dfy` show where they stop: a module that fails inside `_resolve` does not tell its own
waiters, and an exception loses decrements for good. `ModuleManager.dfy` is the mutable class; its ghost
history of events and `View() == Run(history)` connect it to all of that. `ModuleIds.dfy` normalises
relative ids.

**The playground bundler** (`scripts/playground-server.ts`). `Vlq.dfy` and `SourceMaps.dfy` hold
JavaScript's 32-bit operators, the Base64-VLQ digits and a reader of mappings in the sense of Source Map
Revision 3, "Proposed Format"; `MappingFormat.dfy` says which number of a text moves which coordinate. `SourceMapMeaning.dfy` says what a map means (absolute segments, sources by
name) and proves that a reader of the written stream stays in step with a reader of the input stream.
`SourceMapCopying.dfy` is the loop over the bytes of a map in 32-bit arithmetic, as a function,
`DynamicBuffer.dfy` and `SourceMapBuilder.dfy` are the classes, `BundleOrder.dfy` and `Bundler.dfy` the walk
over the module graph, `CachedBundle.dfy` the loader and the incremental cache,
`BundleFreshness.dfy` compares the bundles of that cache with rebuilt ones, and `BundleRoots.dfy` is about
the source root of a bundle's map.

**The duplex streams of the RPC dispatcher** (`cli/src/rpc.rs`). `StreamSpec.dfy` makes each section under the
lock, each awaited write (of any number of bytes, or failing) and each shutdown one atomic step of a
transition system; `StreamInvariant.dfy` and `StreamTheorems.dfy` prove what every interleaving keeps,
and `StreamReuse.dfy` when an id may be used again. `StreamCalls.dfy` defines from the calls alone what was
written to a stream and whether it was removed, and proves that this is what is delivered and shut down.
`Streams.dfy` is the table updated in place. `Outgoing.dfy` and `OutgoingTasks.dfy` do the same for the
registration of streams and their concurrent reader tasks, `OutgoingActions.dfy` says it in terms of what
the other ends did, and that every stream can be finished.

**The chunked keyring store** (`cli/src/auth.rs`). `KeyringChunks.dfy` and `Keyring.dfy`: splitting a secret with
continuation markers over entries that may hold stale chunks, reading it back and clearing it.

`Graphs.dfy`, `Collections.dfy` and `Options.dfy` hold what these share.

Seven things the code does not do, each with its exact boundary:

- A defined module that has not failed stays incomplete exactly if an exception lost it a decrement, or it
  waits, directly or not, for a module that is failed or undefined, that an exception left as it ran, or
  that lost a decrement itself (`LoaderTheorems.IncompleteIffBlocked`). So there is no deadlock while nothing
  has failed and no exception has left a module (`LoaderTheorems.NoDeadlock`,
  `LoaderExceptions.NoDeadlockWithoutExceptions`), and on acyclic graphs a module then has run exactly
  if all it depends on is defined (`LoaderTheorems.RunsIffAllDefined`). Being blocked by a failure or an
  exception does happen, and is for ever (`LoaderStranding.StrandingHappens`,
  `LoaderExceptions.ExceptionStrandsWaiters`, `LoaderExceptions.ExceptionLosesDecrements`,
  `LoaderStranding.StrandedForever`).
- A module that fails to load takes everything that waits for it with it exactly if no errorback on the
  way, but perhaps the last, throws (`LoaderFlood.AllToldIff`, `LoaderFlood.ToldIff`); one that throws
  keeps the others from being told, and the global handler too (`LoaderExceptions.ErrorbackSilencesOthers`).
- `addSource` does not read back what `addVLQ` writes for a coordinate that changes by 2^30 or more, and
  reads back everything else (`SourceMapCopying.LoopRoundTripIff`).
- The incremental bundle has the bytes of a rebuilt one exactly unless a file that did not parse when it was
  loaded parses now (`BundleFreshness.BundleIsFreshIff`, `BundleFreshness.RepairGoesUnnoticed`), and
  loading never finishes exactly if a cycle of requests or a missing file is reachable
  (`CachedBundles.LoadingFinishesIff`).
- The map of a bundle names the origins its modules' maps name, source roots included, exactly if every map
  that names one has the root of the entry's (`BundleRoots.BundleNamesOriginsIff`, `BundleRoots.OtherRootIsLost`).
- Registering a stream is harmless exactly if its id has no record; an earlier stream with that id may
  still be shutting down. Otherwise some continuation leaves a half without an owner, never to be shut
  down (`StreamReuse.RegisteringIsSafeIff`).
- A stored secret comes back on every keyring exactly if its length is no multiple of the step and its last
  chunk does not end in the marker (`KeyringChunks.AlwaysReadsBackIff`).

## Model

| member | source | states |
|---|---|---|
| LoaderTheorems.IncompleteIffBlocked | src/vs/loader.js:1658-1787 | after any run, a defined module that has not failed is incomplete if and only if it lost a decrement to an exception or waits, through any chain, for a module that is failed, undefined, was left by an exception as it ran, or lost one itself |
| LoaderTheorems.NoDeadlock | src/vs/loader.js:1658-1787 | when everything awaited is defined, nothing failed and no exception left a module as it ran, every defined module has run, cycles or not |
| LoaderTheorems.RunsIffAllDefined | src/vs/loader.js:1658-1787 | on an acyclic graph, without failures and exceptions, a module has run if and only if everything its declared dependencies lead to is defined, in whatever order it was |
| LoaderExceptions.NoDeadlockWithoutExceptions | src/vs/loader.js:1131-1158 | no deadlock for definitions whose factories return or have their exceptions caught, by a handler that returns |
| LoaderExceptions.RunStaysTame | src/vs/loader.js:1124-1158 | without factories or handlers that throw uncaught, no exception ever leaves a module |
| LoaderExceptions.ExceptionStrandsWaiters | src/vs/loader.js:1139-1163 | with `catchError` off, the waiter of a module that throws never runs, though everything is defined and nothing is marked as failed |
| LoaderExceptions.ExceptionLosesDecrements | src/vs/loader.js:1764-1774 | an exception of one waiter, be it its factory's or that of the handler its error goes to, keeps the ones after it from being told, so that they never run though they wait for nothing |
| LoaderExceptions.ErrorbackSilencesOthers | src/vs/loader.js:1477-1497 | an errorback that throws keeps a second waiter from failing and being notified, and the error from being reported |
| LoaderTheorems.AwaitedIsDefinedOrRequested | src/vs/loader.js:1591-1596 | whatever is awaited is defined or was requested, and no script is requested twice |
| LoaderTheorems.FactoryOrder | src/vs/loader.js:1658-1787 | a module runs at most once, after each of its regular dependencies except cut ones that lie on a cycle of declared dependencies |
| LoaderTheorems.TopologicalOrder | src/vs/loader.js:1658-1787 | on an acyclic graph nothing is cut and modules run in topological order |
| LoaderTheorems.CutsBreakAllCycles | src/vs/loader.js:1686-1697 | without the cut edges the modules that ran depend on each other acyclically |
| LoaderTheorems.IncompleteIsBlocked | src/vs/loader.js:1686-1700 | following waits from an incomplete module ends at a hopeless or undefined one, because the wait-for graph is acyclic |
| LoaderTheorems.WaiterHasNotRun | src/vs/loader.js:1722-1787 | whoever waits, through any chain, has not run |
| LoaderTheorems.LoserHasNotRun | src/vs/loader.js:1764-1774 | nor has whoever lost a decrement to an exception |
| LoaderStranding.StrandedForever | src/vs/loader.js:1680-1684 | a module that lost a decrement, or waits for one that is failed, threw uncaught or lost one, is never run by any continuation of the run |
| LoaderStranding.StrandingHappens | src/vs/loader.js:1680-1684 | a run in which everything awaited is defined yet a module neither ran nor failed, because a failure in `_resolve` is not passed on |
| LoaderStranding.RunKeepsDoom | src/vs/loader.js:1658-1787 | failures, lost decrements, and waits for hopeless modules survive every continuation |
| LoaderInvariant.OnModuleCompleteKeeps | src/vs/loader.js:1722-1774 | the counting invariant holds through the recursion, whatever decrements the callers on the stack still owe, and wherever an exception cuts it short |
| LoaderInvariant.ReleaseKeeps | src/vs/loader.js:1764-1774 | the same for the loop over a half-processed waiter list |
| LoaderInvariant.CompleteKeepsCore | src/vs/loader.js:1139-1168 | running a module that returns or is caught turns its waiters into owed decrements and keeps counts, order and acyclicity |
| LoaderInvariant.EscapeKeepsCore | src/vs/loader.js:1139-1163 | a module that throws uncaught is complete but keeps its dependencies and its waiters, and the invariant holds |
| LoaderInvariant.AbandonKeeps | src/vs/loader.js:1764-1774 | the rest of a waiter list that an exception abandons becomes lost decrements, which the counts account for |
| LoaderSpec.OnModuleComplete | src/vs/loader.js:1722-1787 | the release recursion ends because incomplete modules only become fewer, and defines no module |
| LoaderSteps.WaitsAreDependencies | src/vs/loader.js:1698-1700 | every wait edge is a dependency edge the cycle search follows, so its answer covers the wait-for graph |
| LoaderSteps.ExamineKeepsResolving | src/vs/loader.js:1662-1720 | each iteration of `_resolve` keeps the invariant, the count covering the dependencies not examined yet |
| LoaderSteps.ResolveKeepsQuiet | src/vs/loader.js:1658-1721 | `_resolve` leaves the tables at rest: nobody is ready and not run (answers of the script loader come later) |
| LoaderSteps.DefineKeepsQuiet | src/vs/loader.js:1352-1370 | so does `defineModule` |
| LoaderSteps.LoadFailedKeepsQuiet | src/vs/loader.js:1464-1498 | so does `_onLoadError`, however far its walk gets |
| LoaderFlood.WalkIsAffected | src/vs/loader.js:1471-1494 | undisturbed, the walk gets to the failed module first and then once to everything that waits for it, through any chain |
| LoaderFlood.ToldIff | src/vs/loader.js:1477-1494 | a module fails with the one that failed to load if and only if it is on the walk and no errorback called before its own throws |
| LoaderFlood.AllToldIff | src/vs/loader.js:1477-1494 | everything that waits fails with it if and only if no errorback on the walk, but perhaps the last, throws |
| LoaderFlood.HandlerHearsIff | src/vs/loader.js:1477-1497 | no errorback is called twice; and whichever of them throw, at least one is called exactly if a waiting module has one (what that means for the handler is `LoaderErrors.LoadFailureIsReportedIff`) |
| LoaderErrors.LoadFailureIsReportedIff | src/vs/loader.js:1464-1498 | a script that fails to load is reported to the handler, as one error of phase `loading` with the module and exactly its waiters, if and only if neither the module nor anything that waits for it has an errorback; otherwise the reports stay as they are; either way that error is the module's own afterwards |
| LoaderErrors.FailureSpreads | src/vs/loader.js:1477-1494 | every module on the walk becomes complete with that very error, unless an errorback in front of it throws; then it stays as it is |
| LoaderErrors.FailureSpreadsNoFurther | src/vs/loader.js:1464-1498 | no module outside the walk and no table but those of modules and reports changes |
| LoaderErrors.WalkIsBreadthFirst | src/vs/loader.js:1475-1494 | the walk takes the failed module, then the waiters of those taken so far, list after list in that order, each where it turns up first |
| LoaderErrors.UnseenInOrder | src/vs/loader.js:1485-1492 | of a waiter list, the modules not seen yet are queued in the order of the list, each once |
| LoaderFlood.WithErrorbackConcat | src/vs/loader.js:1477-1482 | errorbacks are called in the order of the walk |
| LoaderErrors.FactoryErrorsAreReported | src/vs/loader.js:1124-1168 | in every run, counted by what its events define: the handler hears once of each factory that ran and threw something caught and truthy, and of no other; that module is failed; and exactly the factories whose exception was not caught, or whose report threw, end with an exception |
| LoaderErrors.RunningFails | src/vs/loader.js:1144-1168 | a factory that throws something caught and truthy: the error, of phase `factory` with the module and its waiters, is reported next and is the module's own; the module has run |
| LoaderErrors.RunningThrows | src/vs/loader.js:1131-1163 | a factory that throws uncaught, or whose report throws: the tables stay as they are, but that the module counts as complete and, in the second case, has and has reported the error |
| LoaderErrors.RunningSucceeds | src/vs/loader.js:1139-1168 | otherwise the module has run, without a new error, and has dropped its dependencies, callback and errorback |
| LoaderRuns.RunIsDefined | src/vs/loader.js:1352-1370 | after any run there are exactly the modules its events define, each by the first definition, and until a module has run to its end it has the dependencies, callback and errorback of that definition |
| LoaderRuns.RequestsAreForUndefined | src/vs/loader.js:1591-1596 | no step of any run requests a module that is defined |
| LoaderRuns.DefinitionFails | src/vs/loader.js:1678-1684 | a definition one of whose dependencies has failed before fails at once, with the error of the first such; nothing runs and nothing is reported |
| LoaderRuns.ExportsIffAsked | src/vs/loader.js:1663-1667 | a new module is handed an exports object if and only if it lists `exports` before any dependency that has failed |
| LoaderSteps.RunKeepsQuiet | src/vs/loader.js:1232-1787 | the invariant holds after every run |
| ModuleManagers.ModuleIdProvider.GetModuleId | src/vs/loader.js:1202-1210 | a name keeps its id; a new one gets the next |
| ModuleManagers.Module.Complete | src/vs/loader.js:1124-1168 | reports exactly if the factory throws something truthy that is caught; leaves the module complete without dependencies, callback and errorback, unless an exception, the factory's or the handler's, leaves it complete and otherwise as it was |
| ModuleManagers.Module.OnDependencyError | src/vs/loader.js:1172-1180 | marks the module complete with the error; says whether an errorback was notified, and whether it threw |
| ModuleManagers.ModuleManager.HasDependencyPath | src/vs/loader.js:1505-1541 | the breadth-first search finds a non-empty path through live dependency lists exactly if there is one |
| ModuleManagers.ModuleManager.NothingLeads | src/vs/loader.js:1514-1540 | once the queue is empty no walk leads to the target |
| ModuleManagers.ModuleManager.OnModuleCompleted | src/vs/loader.js:1722-1787 | the mutable recursion does to the tables what `LoaderSpec.OnModuleComplete` says |
| ModuleManagers.ModuleManager.ReleaseWaiters | src/vs/loader.js:1764-1774 | the loop over waiters does to the tables what `LoaderSpec.Release` says, and throws exactly if an exception left a factory |
| ModuleManagers.ModuleManager.ReleaseNext | src/vs/loader.js:1764-1774 | one iteration: releasing the rest is what remains to be done, unless it threw |
| ModuleManagers.ModuleManager.ReleaseWaiter | src/vs/loader.js:1767-1774 | one waiter is decremented and run at zero |
| ModuleManagers.ModuleManager.RequestModule | src/vs/loader.js:1591-1596 | an unknown module is requested once; the answer comes later |
| ModuleManagers.ModuleManager.AwaitOrCut | src/vs/loader.js:1686-1718 | a wait edge is recorded only if no path leads back; otherwise the dependency is cut and counted down |
| ModuleManagers.ModuleManager.ExamineDependency | src/vs/loader.js:1662-1718 | one iteration of `_resolve`; fails exactly if the dependency has failed, and throws exactly if the errorback called then does |
| ModuleManagers.ModuleManager.ResolveModule | src/vs/loader.js:1658-1721 | performs `LoaderSpec.Resolve` in place; throws exactly if an exception left a module that ran, or a dependency had failed and the errorback throws |
| ModuleManagers.ModuleManager.Flood | src/vs/loader.js:1471-1494 | marks exactly the modules the walk gets to and notifies their errorbacks, in order; throws exactly if one of those throws |
| ModuleManagers.ModuleManager.FloodOne | src/vs/loader.js:1478-1493 | takes one module off the queue, fails it, and, unless its errorback throws, queues the waiters not seen yet |
| ModuleManagers.ModuleManager.FailLoading | src/vs/loader.js:1464-1498 | performs `LoaderSpec.LoadFailed` in place; adds one report, a loading error with the module and its waiters, exactly if no errorback was called; throws exactly if an errorback it calls does, or the global handler, called because there is none |
| ModuleManagers.ModuleManager.NormalizeDependency | src/vs/loader.js:1371-1391 | without a plugin: special names give special dependencies, others the id of the resolved name |
| ModuleManagers.ModuleManager.NormalizeDependencies | src/vs/loader.js:1392-1398 | the same for a list, in order |
| ModuleManagers.ModuleManager.DefineModule | src/vs/loader.js:1352-1370 | is one Defines event of the run, with the ids of the given names; a duplicate changes no module; says exactly when an exception leaves it |
| ModuleManagers.ModuleManager.EnqueueDefineAnonymousModule | src/vs/loader.js:1332-1345 | a second pending anonymous definition is refused |
| ModuleManagers.ModuleManager.OnLoad | src/vs/loader.js:1443-1450 | a pending anonymous definition becomes the definition of the module that was loaded, with its dependencies resolved from there; without one nothing changes |
| ModuleManagers.ModuleManager.OnLoadError | src/vs/loader.js:1464-1498 | is one FailsToLoad event of the run, whichever errorbacks throw; the failure becomes the error of the module and is reported exactly if nobody who waits has an errorback |
| Graphs.AcyclicAddEdge | src/vs/loader.js:1686-1700 | an edge added after finding no reverse path closes no cycle |
| ModuleIds.NormalizeModuleId | src/vs/loader.js:1061-1078 | for every id: the directory part of the result is the value of that of the id, with the last segment kept; terminates on every string |
| ModuleIds.EvalIsPlace | src/vs/loader.js:1058-1060 | without empty segments that value is the canonical spelling (`..` only in front, no `.`) of the place the segments lead to |
| ModuleIds.EmptySeparates | src/vs/loader.js:1070-1077 | an empty segment is kept, and what is before and after it is normalised apart: nothing leads over it |
| ModuleIds.EvalIsNormal | src/vs/loader.js:1058-1060 | every value has no `.` and no name followed by `..` |
| ModuleIds.NormalIfNothingUndone | src/vs/loader.js:1058-1060 | and everything of that form is its own value, so that normal forms are unique |
| ModuleIds.RemoveDots | src/vs/loader.js:1063-1069 | the first two rewritings keep the meaning and leave no `.` directory |
| ModuleIds.RemoveUndoneNames | src/vs/loader.js:1070-1074 | the third keeps the meaning and leaves no name followed by `..` inside |
| ModuleIds.FindUndone | src/vs/loader.js:1071-1074 | finds the leftmost match of the pattern exactly if there is one |
| ModuleIds.NothingUndoneLeft | src/vs/loader.js:1070-1077 | after the last rewriting the directory part is in normal form |
| ModuleIds.WholeIdNormalIff | src/vs/loader.js:1061-1078 | the id as a whole is in normal form exactly if its last segment is not `.`, nor `..` after a name |
| ModuleIds.ModuleIdResolver.constructor | src/vs/loader.js:1049-1057 | keeps the directory part of the requesting id |
| ModuleIds.ModuleIdResolver.ResolveModule | src/vs/loader.js:1082-1090 | a request whose first of several segments is `.` or `..` leads from the directory of the requesting module, segment by segment, and keeps its last segment; every other is kept as it is |
| ModuleIds.RelativeIff | src/vs/loader.js:1084-1086 | the test for the prefixes `./` and `../` is one of the first segment, and no such request is an absolute path |
| ModuleIds.SiblingResolves | src/vs/loader.js:1082-1090 | from a module in directory d, `./x` leads to d and x |
| ModuleIds.ParentResolves | src/vs/loader.js:1082-1090 | `../x` leads to x beside the directory d |
| ModuleIds.OthersStay | src/vs/loader.js:1084-1089 | what does not start with `./` or `../` stays as it is |
| Vlq.CharToIntegerIff | scripts/playground-server.ts:819-827 | a byte is read as its place in the alphabet of RFC 4648 section 4; 255 marks exactly the bytes that do not occur in it and are not `=` |
| Vlq.CharToInteger | scripts/playground-server.ts:819-827 | gives 64 for `=` and otherwise a value below 64 or 255; which one is `Vlq.CharToIntegerIff` |
| Vlq.DigitIsStandard | scripts/playground-server.ts:824-827 | the digit of each value below 64 is the character at that place of the alphabet |
| Vlq.EncodeIsVlq | scripts/playground-server.ts:852-871 | below 2^30 in absolute value, what `addVLQ` writes is the number in the format of Source Map Revision 3: alphabet characters, five bits each, the lowest first, all but the last marked as continued, with twice the magnitude plus the sign as their value, and none superfluous |
| MappingFormat.FirstSegment | scripts/playground-server.ts:772-790 | the four numbers of the first segment are, in that order, column, source, source line and source column, counted from zero |
| MappingFormat.FirstColumn | scripts/playground-server.ts:744-750 | a first segment of one number has that column and no source |
| MappingFormat.MappedFollows | scripts/playground-server.ts:744-791 | after any text that decodes, four numbers make one more segment, relative to the one before: the column on its line, the source, line and column over the whole text (numbers and coordinates below 2^30) |
| MappingFormat.GeneratedFollows | scripts/playground-server.ts:744-791 | one number makes one more segment without a source, which leaves the other coordinates alone |
| MappingFormat.SeparatorFollows | scripts/playground-server.ts:763-771 | `;` starts the next line at column 0, `,` says nothing |
| MappingFormat.FirstOrigin | scripts/playground-server.ts:744-791 | what four numbers say: the place in the text, below the lines before it, comes from that line and column of the source they name |
| MappingFormat.OriginFollows | scripts/playground-server.ts:744-791 | and after any text that decodes, they add exactly one such statement |
| Vlq.SignFirstInRange | scripts/playground-server.ts:855-859 | `addVLQ` starts from a number that stands for the original exactly if that is below 2^30 in absolute value |
| SourceMaps.EncodeReadsBack | scripts/playground-server.ts:852-871 | a reader with exact arithmetic reads what `addVLQ` wrote back as the same number, ending on its last byte, for all numbers below 2^30 in absolute value |
| SourceMaps.RoundTripIff | scripts/playground-server.ts:852-871 | for every integer and any such reader between two numbers: it reads one number, and it is the original if and only if that is below 2^30 in absolute value |
| SourceMapCopying.LoopRoundTripIff | scripts/playground-server.ts:772-790 | the 32-bit loop of `addSource`, from any cursor between two numbers, adds to its field the number `addVLQ` wrote if and only if that is below 2^30 in absolute value |
| SourceMapCopying.LoopReadsOneNumber | scripts/playground-server.ts:772-790 | for every integer the loop takes what `addVLQ` wrote for exactly one number, ending on its last byte |
| SourceMapMeaning.EveryListHasAMap | scripts/playground-server.ts:713-798 | the maps `addSource` is specified for can say anything: every list of segments in order of lines, in known sources, is the meaning of a well-formed one |
| SourceMapMeaning.DigitInPlace | scripts/playground-server.ts:775 | shifting a digit into place with 32-bit wrap-around loses nothing while the number fits 31 bits |
| SourceMapMeaning.NumberFits | scripts/playground-server.ts:775-787 | every number that leaves its coordinate in range fits 31 bits |
| SourceMapMeaning.CommitInStep | scripts/playground-server.ts:744-760 | ending a segment keeps the written stream in step with the input, remapped and moved down |
| SourceMapMeaning.SeparatorInStep | scripts/playground-server.ts:763-771 | so does copying a separator |
| SourceMapMeaning.FinishInStep | scripts/playground-server.ts:793-797 | the end of a source: its last segment, and a `;` for every line without one |
| SourceMapMeaning.RemapKeepsMeaning | scripts/playground-server.ts:723-731 | renumbered sources still have their names |
| SourceMapBuilders.CountNL | scripts/playground-server.ts:891-897 | counts the newlines |
| SourceMapBuilders.CountIsNumber | scripts/playground-server.ts:891-897 | lines are counted by the places where a newline stands |
| SourceMapBuilders.NewSource | scripts/playground-server.ts:683-700 | a text that does not end in a newline gets one; lines are the newlines of the result |
| SourceMapCopying.TakeDigitTracks | scripts/playground-server.ts:772-790 | over a whole map, the 32-bit accumulation agrees with exact arithmetic as long as coordinates stay in range |
| SourceMapBuilders.SourceMapBuilder.MergeSources | scripts/playground-server.ts:723-731 | adds each name once, changes no earlier index, and tells where each one is |
| SourceMapBuilders.SourceMapBuilder.CommitSegment | scripts/playground-server.ts:744-760 | writes the cursor's segment relative to the output and remembers where the output is |
| SourceMapBuilders.SourceMapBuilder.CommitBytesAreText | scripts/playground-server.ts:744-760 | those bytes are the input's segment, remapped |
| SourceMapBuilders.SourceMapBuilder.CopyNext | scripts/playground-server.ts:763-791 | one turn of the loop: what it writes and remembers is one step of `SourceMapCopying.CopyUpto`; on a sound map the written stream stays in step with the input |
| SourceMapBuilders.SourceMapBuilder.CopyAll | scripts/playground-server.ts:761-792 | the loop fails exactly on an unreadable byte |
| SourceMapBuilders.SourceMapBuilder.CopyMappings | scripts/playground-server.ts:732-797 | writes exactly `SourceMapCopying.CopyMap`, and on a sound map the remapped segments |
| SourceMapBuilders.SourceMapBuilder.AddSource | scripts/playground-server.ts:719-798 | a well-formed map appends exactly its meaning, moved down by the lines so far, after the earlier meaning, and there are as many `;` as output lines; throws exactly on an unreadable byte |
| SourceMapBuilders.SourceMapBuilder.AddLine | scripts/playground-server.ts:713-717 | adds text and one mapping line; the map keeps describing the output exactly if the text is one line |
| SourceMapBuilders.SourceMapBuilder.ToContent | scripts/playground-server.ts:800-802 | gives all content added, in order |
| SourceMapBuilders.SourceMapBuilder.ToSourceMap | scripts/playground-server.ts:804-806 | gives the merged sources, the mappings and the root asked for |
| DynamicBuffers.DynamicBuffer.EnsureCapacity | scripts/playground-server.ts:838-845 | contents unchanged; grows to the larger of twice the old size and the request, only if needed |
| DynamicBuffers.DynamicBuffer.AddByte | scripts/playground-server.ts:847-850 | appends one byte; capacity stays within max(512, 2 * size) and all copying below the capacity |
| DynamicBuffers.DynamicBuffer.AddBuffer | scripts/playground-server.ts:880-884 | appends the bytes, with the same bounds |
| DynamicBuffers.DynamicBuffer.AddVLQ | scripts/playground-server.ts:852-871 | appends the digits of the number, for every integer; below 2^30 in absolute value those are the number as a Base64 VLQ of the standard |
| DynamicBuffers.DynamicBuffer.ToBuffer | scripts/playground-server.ts:886-888 | gives what was added |
| BundleOrder.BundleOrderIsRight | scripts/playground-server.ts:504-518 | the bundle holds exactly the modules reachable from the entry, each once, dependencies first unless they depend back |
| BundleOrder.AcyclicBundleOrder | scripts/playground-server.ts:504-518 | on an acyclic graph every dependency comes before its dependent |
| BundleOrder.SiblingsInOrder | scripts/playground-server.ts:508-516 | the dependencies of the entry come in the order it lists them, unless one listed up to there leads to the other |
| BundleOrder.VisitIsRight | scripts/playground-server.ts:508-516 | one visit emits what it must, whatever was visited before and whatever visits are under way |
| Bundlers.Walker.VisitModule | scripts/playground-server.ts:508-516 | each visit feeds the builder the sources below the module, in post-order, then its own; terminates on every finite graph, and throws exactly if a map it feeds has an unreadable byte |
| Bundlers.Walker.VisitDependencies | scripts/playground-server.ts:512-514 | the same for a list of dependencies, in order |
| Bundlers.Walker.FeedSource | scripts/playground-server.ts:515 | one more source after those fed; throws exactly if its map has an unreadable byte |
| Bundlers.AppendSource | scripts/playground-server.ts:515 | adding a source adds its content, names and meaning |
| Bundlers.ExtendsTrans | scripts/playground-server.ts:508-516 | what sources add up to does not depend on how the walk splits them |
| Bundlers.FinishedMap | scripts/playground-server.ts:518-520 | the finished map says what the maps of the sources say, each at its place, with a line for each of theirs |
| Bundlers.BundleWithDependencies | scripts/playground-server.ts:504-528 | the bundle is the sources of the reachable modules in post-order; its map has exactly the bytes copying theirs gives, under the entry's root, and describes all of them; the closing line holds that map; there is none exactly if one of the maps has an unreadable byte |
| BundleRoots.BundleNamesOriginsIff | scripts/playground-server.ts:518-520 | a map that describes its sources, as that of a bundle does, names the same origins under its root, the entry's, as their maps under theirs if and only if every map that names any has that root |
| BundleRoots.OtherRootIsLost | scripts/playground-server.ts:518-520 | two sources with different roots, of which every bundle gets one wrong |
| CachedBundles.LoadingFinishesIff | scripts/playground-server.ts:554-591 | loading finishes exactly if no cycle of requests and no missing file is reachable |
| CachedBundles.CycleNeverFulfilled | scripts/playground-server.ts:562-573 | promises on a cycle of requests wait for each other for ever |
| CachedBundles.RequestEdgesIff | scripts/playground-server.ts:560-576 | a module leads to another if and only if its file is there and parses, and one of its requests, none of `require`, `exports` and `module`, is resolved to it from the path of the module itself |
| CachedBundles.TargetsOfOne | scripts/playground-server.ts:567-576 | one request gives the path it is resolved to, or nothing |
| CachedBundles.TargetsConcat | scripts/playground-server.ts:567-578 | and the paths come in the order of the requests |
| CachedBundles.IncrementalIsFreshIff | scripts/playground-server.ts:475-502 | the modules bundled from the patched loader are those bundled from scratch exactly if no file that did not parse when loaded parses now |
| BundleFreshness.BundleIsFreshIff | scripts/playground-server.ts:475-502 | the bytes of the bundle of the patched loader are those of one built from scratch exactly if no file that did not parse when loaded parses now |
| BundleFreshness.StaleBundleDiffers | scripts/playground-server.ts:490-501 | otherwise their bytes differ, as the last line of a bundle can be told from the text before it |
| BundleFreshness.StaleTextIsShorter | scripts/playground-server.ts:490-501 | the text the patched loader gives is shorter |
| BundleFreshness.PartIsShorter | scripts/playground-server.ts:504-518 | fewer modules, with the same texts, make less text |
| BundleFreshness.RepairGoesUnnoticed | scripts/playground-server.ts:475-502 | it happens: load, then repair a file that did not parse, and the next bundle does not have the bytes of a rebuilt one |
| CachedBundles.NotStaleIsFresh | scripts/playground-server.ts:490-501 | without such a file the loader holds what a new one would |
| CachedBundles.StaleDiffers | scripts/playground-server.ts:490-501 | with one, a module that a new loader bundles is missing |
| CachedBundles.StaleByReviving | scripts/playground-server.ts:494-501 | a change makes the loader stale exactly if it makes an unparsable file of the graph parsable |
| CachedBundles.PatchKeeps | scripts/playground-server.ts:539-552 | patching a module whose requests are unchanged keeps the loader consistent with the files |
| CachedBundles.OtherChangeKeeps | scripts/playground-server.ts:494-501 | a file the loader holds no module for may change freely |
| CachedBundles.ModuleLoader.AddModuleAndDependencies | scripts/playground-server.ts:554-591 | loads what is reachable, parsed and linked as the files say, and changes nothing held before |
| CachedBundles.ModuleLoader.UpdateContent | scripts/playground-server.ts:539-552 | updates the source in place exactly if the new content parses and asks for the same things |
| CachedBundles.CachedBundle.EnsureLoaded | scripts/playground-server.ts:477-482 | a missing loader is made and filled from the files, where loading finishes |
| CachedBundles.CachedBundle.GetBundle | scripts/playground-server.ts:475-488 | where loading finishes: a missing loader is filled from the files, and the result is the bundle of what the loader holds, which is that of the files unless it is stale; a cached one is right, too |
| CachedBundles.CachedBundle.SetModuleContent | scripts/playground-server.ts:490-502 | drops the bundle; patches the loader in place, drops it or keeps it as it is; and makes it stale exactly by reviving a file |
| StreamTheorems.FifoConservation | cli/src/rpc.rs:564-628 | in every interleaving without a failed write to a pipe, delivered, then in flight, then queued bytes are exactly the accepted ones in order |
| StreamTheorems.DeliveredIsSelection | cli/src/rpc.rs:596-628 | even after failed writes, what was delivered is an ordered selection of the accepted bytes: nothing invented, repeated or reordered |
| StreamTheorems.DrainedBeforeClose | cli/src/rpc.rs:543-631 | a half is shut down at most once, and then everything accepted has been delivered |
| StreamTheorems.SingleOwner | cli/src/rpc.rs:564-631 | no two tasks hold the half, and none while it is in its record or shut down |
| StreamTheorems.RecordNeverMissing | cli/src/rpc.rs:603-607 | while no id with a record is registered again, a write loop never finds its record missing, nor another stream's |
| StreamTheorems.NoLostWakeUp | cli/src/rpc.rs:564-620 | a queue with something in it, or a set `ended`, implies exactly one live loop; a record with its half is idle |
| StreamTheorems.LoopsEnd | cli/src/rpc.rs:596-631 | once writes stop, the tasks of a stream take a bounded number of steps whatever others do, and end with the half in an idle record or shut down and everything delivered |
| StreamTheorems.WorkRunsOut | cli/src/rpc.rs:596-631 | each step of a stream's tasks uses up work, and only writes add to it |
| StreamCalls.AcceptedIsWritten | cli/src/rpc.rs:543-584 | in every interleaving, what the pipe of a stream has accepted is exactly what the calls wrote to its id since it was registered; if they also removed it, everything written before that, and of what was written later a beginning |
| StreamCalls.WrittenIsDelivered | cli/src/rpc.rs:564-631 | without a failed write, a stream that is not removed and has no task at work has delivered exactly the bytes the calls wrote to it |
| StreamCalls.ShutIffRemoved | cli/src/rpc.rs:543-631 | a half is shut down, or about to be, only if the calls removed its stream; and if they did and no task holds the half, it has been shut down, once, and its record is gone |
| StreamCalls.WriteAccepted | cli/src/rpc.rs:564-573 | in every reachable state a write to a registered stream is accepted, in full and last |
| StreamCalls.RemoveTakesOrMarks | cli/src/rpc.rs:543-562 | in every reachable state a removal takes the record and makes one task that shuts the half down, or marks the record as ended |
| StreamCalls.WriteOutcome | cli/src/rpc.rs:623-627 | a step of a loop that writes a batch delivers a beginning of what it holds and keeps the rest, or fails and drops it; it fails only on an I/O error |
| StreamCalls.NextRegisters | cli/src/rpc.rs:575-584 | only registering an id changes the pipe it stands for |
| StreamReuse.RegisteringIsSafeIff | cli/src/rpc.rs:575-584 | registering a stream keeps the invariant if and only if its id has no record, and leads to a half without an owner if and only if it has one |
| StreamReuse.OverwriteIdle | cli/src/rpc.rs:575-584 | over an idle record: the half in it is gone at once |
| StreamReuse.OverwriteBusy | cli/src/rpc.rs:596-615 | over a busy one: the old loop puts its half into the new record, and the new half is gone |
| StreamReuse.OrphanStays | cli/src/rpc.rs:531-631 | a half without an owner stays one and gets nothing more, whatever happens |
| StreamReuse.NoOrphans | cli/src/rpc.rs:531-631 | without such registrations there are none |
| StreamInvariant.RunKeeps | cli/src/rpc.rs:531-631 | the invariant (one place per half, bytes accounted for) holds in every state reachable without registering an id that has a record |
| StreamInvariant.StepIsLocal | cli/src/rpc.rs:542-631 | each step changes nothing, or only the stream it is about |
| StreamInvariant.WriteIdle | cli/src/rpc.rs:564-573 | a write to an idle stream appends its buffer to the accepted ones and moves the half from its record to a new loop |
| StreamInvariant.WriteBusy | cli/src/rpc.rs:564-573 | a write to a busy stream appends its buffer to the accepted ones and leaves the half where it is |
| StreamInvariant.RemoveRecord | cli/src/rpc.rs:543-562 | removal takes an idle record and puts its half into a task that shuts it down; a busy one is marked as ended |
| StreamInvariant.TurnStep | cli/src/rpc.rs:601-621 | under the lock a loop ends, returns the half or takes the whole queue |
| StreamInvariant.WriteStep | cli/src/rpc.rs:623-627 | a partial or failed write keeps the bytes accounted for |
| StreamInvariant.InsertKeeps | cli/src/rpc.rs:575-584 | registering an id without a record keeps the invariant, even if an earlier half with that id is still to be shut down |
| Streams.Streams.Write | cli/src/rpc.rs:564-573 | if the id has a record: its queue is the old one and the buffer, the half is out of it, and is handed out if it was there; otherwise nothing changes |
| Streams.Streams.Remove | cli/src/rpc.rs:543-562 | an idle record goes and its half is handed out; a busy one is marked as ended and otherwise stays; without a record nothing changes |
| Streams.Streams.TakeTurn | cli/src/rpc.rs:601-621 | the locked section of the loop |
| Streams.Streams.WriteBatch | cli/src/rpc.rs:623-627 | exactly what the pipe takes of the items goes out, in order, up to the first write that fails |
| Streams.Streams.WriteLoop | cli/src/rpc.rs:596-631 | an uninterrupted loop sends what the pipe takes of the queue, in order, and returns the half, or removes the record and shuts down |
| Outgoing.OrderedOnTheChannel | cli/src/rpc.rs:453-524 | for every stream and interleaving: `streams_started` first, then chunks of 1 to 4096 bytes spelling a prefix of what was produced, then at most one `stream_ended`, then nothing |
| Outgoing.EndMeansComplete | cli/src/rpc.rs:484-521 | an announced end without a failed read means every byte was sent |
| Outgoing.NothingDropped | cli/src/rpc.rs:478-521 | while the channel is open each stream is waiting for its start, being read, or has had its end announced |
| Outgoing.AnnouncedBeforeRead | cli/src/rpc.rs:458-483 | no stream is registered or read before its announcement is on the channel |
| OutgoingActions.StateIsActions | cli/src/rpc.rs:453-524 | which streams are known, what there is to read from each, whether it hung up or failed and whether the channel is closed follow from what happened |
| OutgoingActions.EverythingWrittenIsSent | cli/src/rpc.rs:482-521 | an announced end of a stream no read of which failed: its other end has hung up, and everything it wrote was sent |
| OutgoingActions.NeverStuck | cli/src/rpc.rs:453-521 | a reader can always go on, unless it has read everything and the other end has not hung up; a registration that has streams to announce or start can, too |
| OutgoingActions.EndIsReachable | cli/src/rpc.rs:482-521 | with an open channel, a stream that is read and has hung up gets to its announced end by its own steps, with everything it wrote unless a read failed |
| Outgoing.HappensKeeps | cli/src/rpc.rs:453-524 | the invariant behind these holds in every reachable state |
| Outgoing.SendKeeps | cli/src/rpc.rs:488-521 | a send extends what the other side sees by one message, or ends the task |
| OutgoingTasks.PumpStream | cli/src/rpc.rs:482-521 | a reader sends its chunks and the end, cut off at the first failed send, after which it attempts nothing |
| OutgoingTasks.RegisterStream | cli/src/rpc.rs:453-483 | one announcement, and only if it was accepted every stream is inserted and its reader started |
| OutgoingTasks.ScriptMeaning | cli/src/rpc.rs:482-507 | wherever it is cut off, what a reader sent is in order and carries exactly the chunks it got to |
| OutgoingTasks.WholeScriptMeaning | cli/src/rpc.rs:482-521 | sent in full, it ends with the notice of the end and carries every chunk |
| OutgoingTasks.InsertedAll | cli/src/rpc.rs:478-480 | with distinct ids every stream ends up idle with its own half and no other record changes |
| KeyringChunks.AlwaysReadsBackIff | cli/src/auth.rs:308-352 | a secret comes back on every keyring exactly if its length is no multiple of the step and its last chunk does not end in the marker; otherwise it is lost even on an empty one |
| KeyringChunks.ReadsBackIff | cli/src/auth.rs:308-352 | on a given keyring: exactly if it is terminated, or the stale entry after it reads as what was taken for a marker |
| KeyringChunks.StoreThenRead | cli/src/auth.rs:308-352 | what reading gives after storing, for every secret and every earlier content |
| KeyringChunks.ExactMultipleReadsOn | cli/src/auth.rs:334-346 | a positive exact multiple makes `read` look at least one entry beyond those written and append what is there |
| KeyringChunks.PartsFit | cli/src/auth.rs:332-346 | every entry fits the limit, and all but the last are full |
| KeyringChunks.ReadFromIs | cli/src/auth.rs:308-328 | reading goes on while entries are there, can be read and are continued; the next one makes it an error exactly if it is refused, no credential exactly if it is missing, and otherwise the joined chunks |
| KeyringChunks.ContinuesIff | cli/src/auth.rs:319-320 | a chunk is continued exactly if it ends in `<MORE>`, and counts without that |
| KeyringChunks.ClearsIffReadable | cli/src/auth.rs:354-364 | without earlier handles clearing succeeds exactly if reading does, and then nothing can be read |
| Keyring.KeyringStorage.GetNextEntry | cli/src/auth.rs:294-305 | gives the handle of that number, making it if it is the next |
| Keyring.KeyringStorage.Read | cli/src/auth.rs:308-328 | joins the chunks up to the first without a marker; a missing or unreadable entry ends it; terminates on every keyring |
| Keyring.KeyringStorage.Store | cli/src/auth.rs:330-352 | overwrites the first entries with the parts, stopping at the first that is refused |
| Keyring.PartIsAt | cli/src/auth.rs:332-346 | the loop over offsets writes the parts, no more and no fewer |
| Keyring.KeyringStorage.Clear | cli/src/auth.rs:354-364 | deletes every entry with a handle, stopping at the first that is missing or refused |

## Left out

Module manager:

- Plugin dependencies (`a!b`) and `require` called from inside a factory; the cycle search does not see plugin edges, so the deadlock theorem would not cover them.
- ModuleManagers.ModuleManager.NormalizeDependency: excludes dependencies with `!`, which need plugins.
- ModuleManagers.ModuleManager.NormalizeDependencies: the same.
- ModuleManagers.ModuleManager.DefineModule: the same for the dependencies of the definition.
- ModuleManagers.ModuleManager.OnLoad: the same for those of the pending anonymous definition.
- ModuleManagers.Module.Complete: that a build skips most factories is the outcome "returns"; that `catchError` is a setting, and not a property of each factory, only restricts the runs considered.
- The values modules export, and what factories and handlers compute: they return or throw, nothing else; none of them calls back into the manager.
- `_findCyclePath`, which only produces the text of a warning; the pair that is cut is kept instead.
- Script loading, path configuration, timers, recording and build information: a request is noted, and a definition or a failure may follow at any later time or never.
- LoaderSteps.ResolveKeepsQuiet: no script answers while `_resolve` is still running, as those of `node|` paths, `importScripts` and `empty:` do, which enter `defineModule` or `_onLoadError` from inside its loop.
- ModuleManagers.ModuleManager.RequestModule: the same; it returns before the request is answered.
- The arrays `inQueue` and `seenModuleId` are sets, and the tables indexed by id are maps.

Bundler:

- `parseModule` and the path mapper are functions of content and path; regular expressions, JSON and base64 are not modelled, and the annotation of the last line is a function of the map.
- CachedBundles.ModuleLoader.AddModuleAndDependencies: loads one dependency after the other, where the original starts all of them at once; which loads finish is proved for the concurrent promises (`CachedBundles.LoadingFinishesIff`).
- Overlapping calls of `bundle` and `setModuleContent`, and files that change while they are being loaded.
- CachedBundles.CachedBundle.EnsureLoaded: says nothing where a cycle of requests or a missing file is reachable from the entry, since the call then never returns (`CachedBundles.LoadingFinishesIff`).
- CachedBundles.CachedBundle.GetBundle: the same for a first load.
- BundleFreshness.BundleIsFreshIff: assumes that no module's text is empty, so that the constructor of `Source` lets it end in a newline; a text in which the header of a source map stands in front of everything would be cut to nothing. The closing line holds no newline, as base64 does not.
- SourceMapBuilders.SourceMapBuilder.ToSourceMap: the version, which is constant.
- A rejected promise of `readFile` is not told apart from one that stays pending: in both cases there is no bundle.
- JavaScript numbers beyond 2^53 and the UTF-8 encoding of `addString`; texts are bytes. A source index that does not exist gives NaN, which is modelled.
- The `names` of a source map; a fifth field is read and dropped, as in the original.

Streams:

- Sockets, the serialisation of messages and the scheduler; a duplex pipe is the bytes it has taken, a channel the messages it has accepted.
- Where stream ids come from: `StreamReuse.RegisteringIsSafeIff` says which may be used again, and the theorems are about runs that register no others.
- StreamTheorems.FifoConservation: after a failed write the rest of the batch is gone, as in the original, and `StreamTheorems.DeliveredIsSelection` is what remains.
- OutgoingTasks.PumpStream: the chunks a reader gets are given; how they come about is part of the transition system in `Outgoing.dfy`.
- Streams.Streams.WriteLoop: runs uninterrupted; interleavings are the subject of the transition system, whose locked sections are the same functions of the table.

Keyring:

- Sealing and unsealing, the thread with a timeout around the keyring, and the file fallback.
- Texts are ASCII, so that every offset is a character boundary; the entries the keyring refuses to read or write are fixed.
