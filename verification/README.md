# Verified models of the module loader, the bundler, the path algebra and the RPC layer

This project models the stateful and algebraic cores of the repository in Dafny and proves what they keep, over
whole runs and for all inputs. `dafny verify dfyconfig.toml` checks everything.

- **AMD loader** (`vscode/src/vs/loader.js`). `LoaderState.dfy` describes each operation of the module manager on
  values; `LoaderManager.dfy` has the manager and its module records as objects updated in place, with the loops and
  the recursion of the source, each method proved equal to its description. A run is any sequence of "this id is
  defined with these dependencies", "the load of this id failed" and "a plugin reports that it could not load this
  resource", so asynchronous loading in any order is covered. `LoaderInvariant.dfy` and `LoaderSteps.dfy` carry the
  invariant through every operation, including the recursion of `_onModuleComplete`, where decrements are still
  pending; `LoaderTheorems.dfy` and `LoaderRequests.dfy` draw the conclusions. `LoaderDefinitions.dfy` has the graphs
  of what a run defines. Over these, `LoaderEvents.dfy` says what every event of a run has to do
  with the definitions, `LoaderOrder.dfy` in which order things happen, `LoaderPlugins.dfy` exactly when a run
  completes everything, with plugins that have dependencies themselves, and `LoaderFailures.dfy` which definitions fail
  and who is told of a failure. `ModuleIds.dfy` has the id provider and the normalisation of relative ids: the
  rewriting loops are proved to compute an evaluation on a stack, for every string.
- **Source-map bundler** (`vscode/scripts/playground-server.ts`). `SourceMaps.dfy` is an independent reader of the
  source map format (ECMA-426); `Vlq.dfy` has the base64 quantities with the 32-bit operators of the source;
  `DynamicBuffer.dfy` and `SourceMapBuilder.dfy` are the byte loops over growing arrays, proved against what the
  reader makes of their output; `BundleOrder.dfy` and `Bundler.dfy` are the depth-first walk that emits the modules.
- **CSS paths** (`vscode/src/vs/css.build.ts`). `CssPaths.dfy`, on top of the string lemmas in `Slashes.dfy` and the
  stack of `ModuleIds.dfy`: joining, relative paths and URL rewriting, and the algebra between them.
- **RPC layer** (`vscode/cli/src/rpc.rs`, `vscode/cli/src/msgpack_rpc.rs`). `Frames.dfy` is the length-prefixed
  decoder and its read loop; `RpcCalls.dfy` and `RpcStreams.dfy` are state machines whose steps are the atomic steps
  of concurrent tasks, in any interleaving.
- **Keyring storage** (`vscode/cli/src/auth.rs`). `Keyring.dfy`: values cut into size-limited entries with a
  continuation marker, over a keyring that holds earlier entries and may refuse some.

`Options.dfy`, `Integers.dfy` and `Sequences.dfy` hold what several modules share.

## What the proofs found

Where the code does less than its comments or names suggest, the code is modelled as it is, and the exact condition is
proved:

- Plugins can deadlock: the search for dependency cycles does not see a cycle that goes through a resource which is
  not defined yet (`PluginDeadlock`). When no load failed and no factory throws, everything is complete exactly when
  every dependency is defined, whatever cycles there are and in whatever order the definitions came
  (`CompleteIffAllDefined`). When moreover every requested id has been defined, that is the case exactly when no plugin
  needs, through dependencies and plugins as they were defined, an undefined resource of its own
  (`EverythingCompletesIff`).
- An error that a plugin reports for a resource reaches the global handler only: the modules that wait for the resource
  are not told, and go on waiting until it is defined or its load fails (`WaitersOfResourceStay`).
- A module that is defined with a dependency that has already failed, at whatever position, fails too, but those that
  wait for it are not told (`LateFailureIsNotPropagated`), unlike those that wait for a failed load
  (`ToldAfterLoadError`). Throughout a run everyone who waits for a failed module has failed too exactly when no
  definition with a failed dependency comes while somebody unfinished waits for it (`ToldThroughout`).
- When a factory throws, the modules that already wait are still released (`SettledReleasedItsWaiters`), while later
  definitions that need it fail: a definition fails exactly when one of its dependencies has failed before
  (`DefinitionFailsIff`).
- `addLine` keeps lines and mappings in step exactly when the text has no newline.
- `addVLQ` writes the number it is given exactly when its magnitude is below 2^30.
- `joinPaths` takes a host without a slash behind it for the path: an absolute second part replaces the host too
  (`HostAloneIsLost`).
- `joinPaths` undoes `relativePath` exactly when the new file does not go up beyond the folder that it shares with
  the target.
- `call` inserts its callback after sending the request, so a response that is dispatched in between is lost
  (`EarlyResponseIsLost`). A response without an id leaves the table of callbacks unusable. Ids wrap around after 2^32
  allocations: an answer reaches its caller exactly when no other call has inserted its callback under the same id in
  between (`CallResult`); with at most 2^32 ids that is always so (`DistinctIdsAnswered`), with one more it need not be
  (`WrappedIdIsLost`).
- A stored credential is read back over any earlier entries exactly when its length is not a multiple of the step and
  its last part does not end in the marker; an exactly full last chunk carries a marker too. Clearing an empty keyring
  reports an error.

## Model

| member | source | states |
|---|---|---|
| `LoaderManager.Module.constructor` | vscode/src/vs/loader.js:1094-1107 | a new record counts all its dependencies as unresolved |
| `LoaderManager.Module.Complete` | vscode/src/vs/loader.js:1137-1166 | exports become final, the factory runs once if there is one, its error is recorded with those in need |
| `LoaderManager.Module.OnDependencyError` | vscode/src/vs/loader.js:1170-1178 | the record is complete with the error; tells whether a local handler was called |
| `LoaderManager.ModuleManager.HasDependencyPath` | vscode/src/vs/loader.js:1502-1538 | the breadth-first search terminates and finds a path of at least one edge exactly when there is one, self-loops included |
| `LoaderManager.ModuleManager.LoadModule` | vscode/src/vs/loader.js:1588-1593 | a script is requested unless its id is defined or known |
| `LoaderManager.ModuleManager.LoadPluginDependency` | vscode/src/vs/loader.js:1637-1650 | a resource is requested from its plugin unless its id is defined or known |
| `LoaderManager.ModuleManager.SettleModule` | vscode/src/vs/loader.js:1725-1761 | values of the dependencies are collected, the module completes, and its list of waiters is taken and cleared |
| `LoaderManager.ModuleManager.ReleaseWaiters` | vscode/src/vs/loader.js:1762-1773 | the loop over the waiters, with its recursive completions, is the recursion on values |
| `LoaderManager.ModuleManager.FlushPluginQueue` | vscode/src/vs/loader.js:1774-1783 | every resource queued behind a plugin is requested, and the queue is gone |
| `LoaderManager.ModuleManager.OnModuleComplete` | vscode/src/vs/loader.js:1719-1784 | the whole new state; termination by the number of incomplete modules |
| `LoaderManager.ModuleManager.ExaminePosition` | vscode/src/vs/loader.js:1660-1713 | one position of a dependency list: special key, complete, cycle broken, or wait recorded and requested |
| `LoaderManager.ModuleManager.Resolve` | vscode/src/vs/loader.js:1655-1718 | the whole new state, with the early return at a failed dependency |
| `LoaderManager.ModuleManager.DefineModule` | vscode/src/vs/loader.js:1349-1367 | a duplicate is ignored; otherwise the record is added and resolved at once |
| `LoaderManager.ModuleManager.NotifyWaiters` | vscode/src/vs/loader.js:1466-1491 | the queue walk delivers the error in its order and tells whether anyone had a handler |
| `LoaderManager.ModuleManager.OnLoadError` | vscode/src/vs/loader.js:1461-1495 | the whole new state, with the placeholder record and the global handler as last resort |
| `LoaderManager.ModuleManager.OnResourceError` | vscode/src/vs/loader.js:1645-1647 | an error reported by a plugin goes to the global handler, with those in need, and changes nothing else |
| `LoaderInvariant.OnModuleCompleteInv` | vscode/src/vs/loader.js:1719-1784 | completing a module with decrements still pending keeps the counter, flag, position and wait invariants |
| `LoaderInvariant.ReleaseInv` | vscode/src/vs/loader.js:1762-1773 | after the loop every pending decrement has been made and nothing else is owed |
| `LoaderInvariant.AcyclicAdd` | vscode/src/vs/loader.js:1682-1695 | recording a wait keeps the waits acyclic when no path of waits leads back |
| `LoaderSteps.WaitsAreDependencies` | vscode/src/vs/loader.js:1682-1695 | a path of waits is a path of dependencies, so that the search is enough |
| `LoaderSteps.ResolveInv` | vscode/src/vs/loader.js:1655-1718 | resolving from any position on keeps the invariant |
| `LoaderSteps.LoadFailsInv` | vscode/src/vs/loader.js:1461-1495 | a load error keeps the invariant |
| `LoaderTheorems.NoCycleOfWaits` | vscode/src/vs/loader.js:1682-1695 | in every reachable state the recorded waits are acyclic |
| `LoaderTheorems.CounterCountsWaits` | vscode/src/vs/loader.js:1655-1773 | between steps the counter of an incomplete module is the number of its recorded waits, duplicates included, and is positive |
| `LoaderTheorems.FactoryRunsOnceWhenReady` | vscode/src/vs/loader.js:1719-1758 | no module completes twice, and a factory gets the final exports of every dependency at which no cycle was broken |
| `LoaderEvents.FactoryArguments` | vscode/src/vs/loader.js:1682-1755 | every factory call of a run: exports object, module object and require function exactly at their keys, the exports of its own dependency everywhere else, final ones unless a cycle was broken there; and a broken position is on a cycle of the lists as they were defined |
| `LoaderEvents.AcyclicGetsFinalExports` | vscode/src/vs/loader.js:1682-1755 | if the definitions have no cycle, every factory gets the final exports of all its dependencies |
| `LoaderEvents.FactoryErrors` | vscode/src/vs/loader.js:1154-1161 | a factory error is reported exactly when a factory throws, right after it ran, and names modules that depend on it |
| `LoaderEvents.CompletionIsReported` | vscode/src/vs/loader.js:1137-1166 | completing is the next event; the error of a throwing factory comes right after it, names exactly those who wait, and is kept |
| `LoaderEvents.HandlerCalls` | vscode/src/vs/loader.js:1170-1178 | a local handler is called only for a module defined with one that has not completed |
| `LoaderEvents.RequestsFollow` | vscode/src/vs/loader.js:1696-1712 | scripts are requested for plain dependencies and plugins, resources from their own plugin once it is complete |
| `LoaderEvents.ResourceErrorIsReported` | vscode/src/vs/loader.js:1645-1647 | an error reported by a plugin adds one call of the global handler, with those who wait, and nothing else |
| `LoaderOrder.RequestedInListOrder` | vscode/src/vs/loader.js:1655-1713 | new scripts are requested in the order of the dependency list |
| `LoaderOrder.FirstComeFirstServed` | vscode/src/vs/loader.js:1762-1783 | waiters complete in the order in which they were defined, then the queued resources are requested in the order in which they were queued |
| `LoaderOrder.ErrorsInOrder` | vscode/src/vs/loader.js:1461-1495 | waiters are told of a load error in the order in which they were defined |
| `LoaderOrder.HitNearestFirst` | vscode/src/vs/loader.js:1471-1491 | a load error reaches the modules that wait nearest first |
| `LoaderTheorems.SettledMeansCompleted` | vscode/src/vs/loader.js:1137-1178 | a module has completed exactly when its list is gone; otherwise it is incomplete or failed |
| `LoaderTheorems.SettledReleasedItsWaiters` | vscode/src/vs/loader.js:1758-1773 | nobody waits any more for a completed module, even if its factory threw |
| `LoaderTheorems.IncompleteWaitsForStuck` | vscode/src/vs/loader.js:1655-1784 | no deadlock inside the manager: an incomplete module waits, through recorded waits, for an undefined or failed id |
| `LoaderTheorems.AllCompleteIff` | vscode/src/vs/loader.js:1655-1784 | without failures everything is complete exactly when nobody waits for an undefined id |
| `LoaderTheorems.WalkFindsWaiters` | vscode/src/vs/loader.js:1466-1491 | the walk over inverse dependencies lists exactly the ids that wait for the failed one, once each |
| `LoaderTheorems.LoadFailureIsExact` | vscode/src/vs/loader.js:1461-1495 | exactly these become complete with the error, each handler is called once, the global one exactly when there is none, and nothing else changes |
| `LoaderTheorems.HitModulesNeverRan` | vscode/src/vs/loader.js:1461-1495 | none of the modules hit has ever run its factory |
| `LoaderTheorems.FailedForever` | vscode/src/vs/loader.js:1170-1178 | nor will it run later, whatever happens |
| `LoaderTheorems.WaitersOfResourceStay` | vscode/src/vs/loader.js:1642-1648 | whoever waits for an undefined resource never completes and stays waiting, whatever else happens and whatever errors its plugin reports, until it is defined or its load fails |
| `LoaderRequests.WaitedForIsAsked` | vscode/src/vs/loader.js:1692-1713 | whatever is waited for is defined, requested, or queued behind a plugin that was asked for and has not completed |
| `LoaderRequests.RequestedOnce` | vscode/src/vs/loader.js:1588-1643 | no id is requested twice |
| `LoaderRequests.DefinedIsNotRequested` | vscode/src/vs/loader.js:1588-1593 | what is defined is never requested, nor is a module by its own definition |
| `LoaderDefinitions.RunFollows` | vscode/src/vs/loader.js:1682-1710 | every recorded wait is a dependency that was defined, and every queued resource was asked of that plugin |
| `LoaderPlugins.CompleteIffAllDefined` | vscode/src/vs/loader.js:1655-1784 | without errors, everything is complete exactly when every ordinary dependency of every definition is defined: cycles and the order of definitions never matter |
| `LoaderPlugins.EverythingCompletesIff` | vscode/src/vs/loader.js:1696-1783 | when every requested id is defined too, everything is complete exactly when no plugin leads, through the dependencies and plugins defined, to an undefined resource of its own; equivalently, no plugins wait in a circle for queued resources, and no queue is left |
| `LoaderPlugins.PluginDeadlock` | vscode/src/vs/loader.js:1696-1710 | two definitions that leave a deadlock through a plugin |
| `LoaderFailures.DefinitionFailsIff` | vscode/src/vs/loader.js:1673-1678 | a definition fails exactly when one of its dependencies, at whatever position, has failed before |
| `LoaderFailures.DefinitionTakesFirstError` | vscode/src/vs/loader.js:1673-1678 | it takes the error of the first such dependency, and its handler is called with that error |
| `LoaderFailures.DefinitionExaminesUpToError` | vscode/src/vs/loader.js:1673-1713 | dependencies before the first failed one are examined all the same: the module waits for those that are not defined |
| `LoaderFailures.LateFailureIsNotPropagated` | vscode/src/vs/loader.js:1673-1678 | such a failure leaves the records and the waits of all other modules as they are |
| `LoaderFailures.ToldAfterDefinition` | vscode/src/vs/loader.js:1655-1718 | all who wait for failed modules have failed after a definition exactly when they had before, and the definition does not fail or nobody unfinished waits for it |
| `LoaderFailures.ToldAfterLoadError` | vscode/src/vs/loader.js:1461-1495 | a load error leaves nobody who waits for a failed module untold |
| `LoaderFailures.ToldThroughout` | vscode/src/vs/loader.js:1349-1718 | over a whole run, everyone is told at every point exactly when no definition fails while somebody unfinished waits for it |
| `ModuleIds.NormalizeModuleId` | vscode/src/vs/loader.js:1059-1076 | the rewriting terminates and gives, for every string, the evaluation of its segments on a stack |
| `ModuleIds.NormalizedShape` | vscode/src/vs/loader.js:1059-1076 | no `.` is left, and `..` only at the front |
| `ModuleIds.NormalizedIdempotent` | vscode/src/vs/loader.js:1059-1076 | normalising again changes nothing |
| `ModuleIds.NormalizedLeadsToSame` | vscode/src/vs/loader.js:1056-1076 | a normalised id leads to the same place as the id, from every directory |
| `ModuleIds.NormalFormIsCanonical` | vscode/src/vs/loader.js:1056-1076 | two ids have the same normal form exactly when they mean the same from every directory |
| `ModuleIds.ModuleIdResolver.constructor` | vscode/src/vs/loader.js:1046-1055 | the path of a module is its id up to the last slash |
| `ModuleIds.ModuleIdResolver.ResolveModule` | vscode/src/vs/loader.js:1080-1088 | an id in `./` or `../` leads, from every directory, where it leads from the folders of the module, and keeps its last segment; any other id stays |
| `ModuleIds.ResolvedFromModuleDir` | vscode/src/vs/loader.js:1080-1088 | a resolved id leads where the id leads from the directory of its module |
| `ModuleIds.ModuleIdProvider.constructor` | vscode/src/vs/loader.js:1187-1196 | the three special keys have the ids 0, 1 and 2 |
| `ModuleIds.ModuleIdProvider.GetModuleId` | vscode/src/vs/loader.js:1200-1208 | ids are consecutive and stay; the two tables remain inverse to each other |
| `Vlq.VlqRoundTrip` | vscode/scripts/playground-server.ts:663-682 | the digits stand for the number exactly when its magnitude is below 2^30 |
| `Vlq.ShortVlq` | vscode/scripts/playground-server.ts:663-682 | the lowest bit written is the sign and the lowest five bits come first; a digit of 32 or more says that another follows |
| `Vlq.ShiftIsExact` | vscode/scripts/playground-server.ts:586-588 | while the value is below 2^31, no 32-bit shift of the reading loop loses anything |
| `Vlq.SignIsExact` | vscode/scripts/playground-server.ts:590-592 | the end of the reading loop takes off the sign exactly |
| `Vlq.AlphabetRoundTrip` | vscode/scripts/playground-server.ts:630-638 | the two tables undo each other on digits |
| `Vlq.AlphabetIs` | vscode/scripts/playground-server.ts:635-638 | the digits are upper case, lower case, decimal digits, plus and slash, in this order |
| `DynamicBuffers.DynamicBuffer.EnsureCapacity` | vscode/scripts/playground-server.ts:649-656 | growing keeps the contents; growth is bounded and has copied no more than the capacity |
| `DynamicBuffers.DynamicBuffer.AddByte` | vscode/scripts/playground-server.ts:658-661 | one byte appended; capacity at most twice the size, or 512 |
| `DynamicBuffers.DynamicBuffer.AddBuffer` | vscode/scripts/playground-server.ts:691-695 | all bytes appended, same bounds |
| `DynamicBuffers.DynamicBuffer.AddVlq` | vscode/scripts/playground-server.ts:663-682 | the digits of the number appended, for every integer, with 32-bit operators |
| `SourceMaps.ScanVlq` | vscode/scripts/playground-server.ts:584-602 | a reader takes the written digits as exactly one field with that value |
| `SourceMaps.FirstSegment` | vscode/scripts/playground-server.ts:573-602 | what the first segment of a map means |
| `SourceMaps.NextSegment` | vscode/scripts/playground-server.ts:573-602 | what one more segment adds, in terms of the entries before it: columns are relative on a line and start over after a semicolon, source positions are relative to the last one anywhere |
| `SourceMapBuilders.CountNL` | vscode/scripts/playground-server.ts:702-708 | the number of newlines |
| `SourceMapBuilders.MakeSource` | vscode/scripts/playground-server.ts:494-511 | a missing last newline is added, and the lines are counted with it |
| `SourceMapBuilders.SourceMapBuilder.Commit` | vscode/scripts/playground-server.ts:555-571 | the segment written moves a reader of the output to the re-based fields |
| `SourceMapBuilders.SourceMapBuilder.MergeSources` | vscode/scripts/playground-server.ts:534-542 | names are never repeated, old indices stay, and every new index finds the same name |
| `SourceMapBuilders.SourceMapBuilder.CopyMappings` | vscode/scripts/playground-server.ts:545-608 | reading the output gives the entries before and the entries of the input, moved down and remapped |
| `SourceMapBuilders.FirstBadByte` | vscode/scripts/playground-server.ts:583-585 | a well-formed map with anything behind it is accepted as input, and copying stops at the first byte that is neither digit, `=` nor separator |
| `SourceMapBuilders.SourceMapBuilder.AddLine` | vscode/scripts/playground-server.ts:524-528 | text and meaning afterwards; lines and mappings stay in step exactly when the text has no newline |
| `SourceMapBuilders.SourceMapBuilder.AddSource` | vscode/scripts/playground-server.ts:530-609 | the meaning is extended by that of the source, below the text before, with its own names; fails exactly at a byte outside the alphabet |
| `SourceMapBuilders.SourceMapBuilder.SemicolonsAreNewlines` | vscode/scripts/playground-server.ts:524-609 | the mappings have as many semicolons as the output has newlines |
| `SourceMapBuilders.SourceMapBuilder.ToContent` | vscode/scripts/playground-server.ts:611-613 | the bytes written |
| `SourceMapBuilders.SourceMapBuilder.ToSourceMap` | vscode/scripts/playground-server.ts:615-617 | reading the result gives the meaning |
| `BundleOrder.OrderIsReachable` | vscode/scripts/playground-server.ts:315-330 | on any finite graph, cyclic or not, exactly the reachable modules are emitted, once each |
| `BundleOrder.DependenciesFirst` | vscode/scripts/playground-server.ts:319-328 | a dependency that does not need its dependent back is emitted before it |
| `BundleOrder.EntersUnvisited` | vscode/scripts/playground-server.ts:319-328 | a visit enters exactly what can be reached through modules that were not visited before |
| `BundleOrder.DependenciesInOrder` | vscode/scripts/playground-server.ts:324-327 | the dependencies of any module that is entered are emitted in the order of its list, unless they are on the call stack, were visited, or are needed by an earlier one |
| `BundleOrder.RootDependenciesInOrder` | vscode/scripts/playground-server.ts:324-327 | the same for the root, over reachability alone |
| `Bundlers.Bundler.VisitModule` | vscode/scripts/playground-server.ts:319-328 | the recursive walk visits and emits what the order says, and fails exactly at an unreadable map |
| `Bundlers.BundleWithDependencies` | vscode/scripts/playground-server.ts:315-339 | text and decoded map of the bundle are those of the modules in order, each map below the text before it |
| `CssPaths.PushPath` | vscode/src/vs/css.build.ts:203-231 | a path is cut after each slash and its pieces are pushed one by one |
| `CssPaths.JoinPaths` | vscode/src/vs/css.build.ts:189-241 | the joined path, with protocol prefix and absolute second part |
| `CssPaths.JoinedIsNormalized` | vscode/src/vs/css.build.ts:184-241 | on paths without empty folders joining is normalising the concatenation |
| `CssPaths.JoinIsIdempotent` | vscode/src/vs/css.build.ts:189-241 | a joined path is normalised: joining it again changes nothing |
| `CssPaths.JoinIsAssociative` | vscode/src/vs/css.build.ts:189-241 | joining is associative on folders, with any path at the end |
| `CssPaths.JoinedShape` | vscode/src/vs/css.build.ts:189-241 | the folders of a joined path are a run of `..` and then proper names |
| `CssPaths.ProtocolIsKept` | vscode/src/vs/css.build.ts:191-201 | protocol and host stay in front, and the paths behind them are joined |
| `CssPaths.AbsoluteReplaces` | vscode/src/vs/css.build.ts:203-241 | an absolute second part replaces the path of the first and is followed from the root, above which there is nothing |
| `CssPaths.HostAloneIsLost` | vscode/src/vs/css.build.ts:191-241 | behind a host without a slash an absolute second part replaces the host too |
| `CssPaths.PathOfSplit` | vscode/src/vs/css.build.ts:175-182 | the path of a file has exactly the folders of the file |
| `CssPaths.CommonPrefix` | vscode/src/vs/css.build.ts:243-251 | the longest common prefix |
| `CssPaths.CommonFolderPrefixIsLongest` | vscode/src/vs/css.build.ts:253-260 | a folder is a prefix of both paths exactly when it is a prefix of their common folder prefix |
| `CssPaths.RelativePath` | vscode/src/vs/css.build.ts:262-278 | absolute targets stay; otherwise up out of the remaining folders and down to the target |
| `CssPaths.RelativeIsInverse` | vscode/src/vs/css.build.ts:175-278 | joining the folder of the new file and the relative path gives the target exactly when the new file does not go up beyond the shared folder |
| `CssPaths.RewriteUrl` | vscode/src/vs/css.build.ts:159-164 | a URL is made absolute from the old file and relative to the new one |
| `CssPaths.RewrittenMeansSame` | vscode/src/vs/css.build.ts:159-164 | a rewritten URL means from the new file what the URL means from the old one, exactly when the new file does not go up beyond the folder it shares with the target |
| `CssPaths.RewriteViaIntermediate` | vscode/src/vs/css.build.ts:159-164 | rewriting by way of an intermediate file is rewriting directly, if that file does not go up beyond the folder it shares with the target |
| `Frames.U32PrefixedCodec.Decode` | vscode/cli/src/msgpack_rpc.rs:114-131 | one message is taken off a buffer that has a whole frame, and nothing otherwise; its length is the big-endian value of the first four bytes |
| `Frames.FirstMessage` | vscode/cli/src/msgpack_rpc.rs:114-131 | the first message of a buffer has the length that its first four bytes stand for, most significant first |
| `Frames.ShortMessage` | vscode/cli/src/msgpack_rpc.rs:114-131 | three zeros, a length and that many bytes are one message |
| `Frames.LengthOrder` | vscode/cli/src/msgpack_rpc.rs:121-122 | lengths are ordered as their bytes are, lexicographically |
| `Frames.Connection.Receive` | vscode/cli/src/msgpack_rpc.rs:60-88 | after one read every message that it completes has been dispatched, in order |
| `Frames.Connection.Run` | vscode/cli/src/msgpack_rpc.rs:58-90 | messages and leftover depend on the stream alone, not on how it is cut into reads |
| `Frames.MessagesRoundTrip` | vscode/cli/src/msgpack_rpc.rs:114-131 | any messages followed by part of a frame are decoded to exactly these messages and that part |
| `Frames.StreamIsConserved` | vscode/cli/src/msgpack_rpc.rs:114-131 | any stream is the frames of the decoded messages and the leftover |
| `Frames.LeftoverIsPartOfFrame` | vscode/cli/src/msgpack_rpc.rs:115-126 | the leftover is exactly a strict prefix of some frame |
| `MessageIds.WireIdsDistinct` | vscode/cli/src/rpc.rs:400-403 | ids are pairwise distinct exactly as long as at most 2^32 were handed out |
| `RpcCalls.Shared.NextMessageId` | vscode/cli/src/rpc.rs:400-403 | the id of the next allocation, wrapping around |
| `RpcCalls.Shared.InsertCallback` | vscode/cli/src/rpc.rs:365-381 | the callback is in the table under its id, replacing another one; a table left locked by a panic refuses it |
| `RpcCalls.Shared.Call` | vscode/cli/src/rpc.rs:345-384 | allocate, send, insert; without a channel nothing is inserted |
| `RpcCalls.Shared.Dispatch` | vscode/cli/src/rpc.rs:412-449 | an error or success response removes and runs the callback with its id; without an id the dispatcher panics |
| `RpcCalls.CallbacksRunOnceForOwnId` | vscode/cli/src/rpc.rs:345-449 | in every interleaving a callback runs at most once, and only for a response with its own id |
| `RpcCalls.WaitingIsRegistered` | vscode/cli/src/rpc.rs:365-381 | an inserted callback that has not run is in the table exactly when no other call has taken over its id |
| `RpcCalls.CallResult` | vscode/cli/src/rpc.rs:345-449 | in every run, a caller receives the first response with its id after its callback was inserted exactly when no other call takes over the id before it; otherwise it receives nothing |
| `RpcCalls.ReceivedFrom` | vscode/cli/src/rpc.rs:437-449 | what a caller receives is the error or the body of the first response with its id after its callback was inserted; requests are never taken for responses |
| `RpcCalls.ResponseIsReceived` | vscode/cli/src/rpc.rs:437-449 | conversely such a response reaches the caller unless the id was taken over or the table was left unusable |
| `RpcCalls.UnsentIsDropped` | vscode/cli/src/rpc.rs:359-362 | a call whose request could not be sent is never in the table and receives nothing |
| `RpcCalls.DistinctIdsAnswered` | vscode/cli/src/rpc.rs:345-449 | with at most 2^32 ids every caller receives its answer and every waiting callback is in the table |
| `RpcCalls.EarlyResponseIsLost` | vscode/cli/src/rpc.rs:359-365 | a run in which the response comes between sending and inserting, and is lost |
| `RpcCalls.WrappedIdIsLost` | vscode/cli/src/rpc.rs:365-449 | a run with 2^32 + 1 ids in which the answer to the first call goes to the last one |
| `RpcStreams.RunTask` | vscode/cli/src/rpc.rs:483-521 | one task alone sends its segments and then the end, as far as the channel takes them |
| `RpcStreams.TaskFramesAre` | vscode/cli/src/rpc.rs:483-521 | one frame for each read up to the first that is empty or fails, and then the end |
| `RpcStreams.StreamTrace` | vscode/cli/src/rpc.rs:452-524 | in every interleaving: the announcement with the id of its request and all its streams, then non-empty segments of at most 4096 bytes that are a prefix of what was written, then at most one end; the end only after everything was sent and the server end closed, unless reading failed |
| `RpcStreams.ExecFollows` | vscode/cli/src/rpc.rs:452-524 | requests, stream ids, bytes written and announcements of the state are those of the events, in their order |
| `RpcStreams.AnnouncementIsSent` | vscode/cli/src/rpc.rs:452-476 | while the channel is open an announcement is sent, and otherwise the registration is given up |
| `RpcStreams.TaskCanStart` | vscode/cli/src/rpc.rs:478-483 | after the announcement there is a task for each stream, in order |
| `RpcStreams.TaskIsNotStuck` | vscode/cli/src/rpc.rs:483-521 | a task waits only when everything written was read and the server end is open |
| `RpcStreams.WireTraceIsTrace` | vscode/cli/src/rpc.rs:245-248 | with at most 2^32 ids a client sees under an id exactly the frames of one stream |
| `Keyrings.KeyringStorage.GetNextEntry` | vscode/cli/src/auth.rs:220-231 | the handle at each index is the handle of that entry |
| `Keyrings.KeyringStorage.Read` | vscode/cli/src/auth.rs:234-254 | terminates on every keyring; missing and refused entries are told apart |
| `Keyrings.ReadIs` | vscode/cli/src/auth.rs:234-254 | the first entry that does not go on decides: refused, missing, or the end of the value, which is all parts without their markers |
| `Keyrings.MarkerMeans` | vscode/cli/src/auth.rs:211 | an entry goes on when it ends in `<MORE>` |
| `Keyrings.KeyringStorage.Store` | vscode/cli/src/auth.rs:256-278 | entry by entry, in terms of the limit: consecutive parts of the value, full ones with the marker, none longer than the limit, up to the first entry that is refused; and exactly when the value is read back |
| `Keyrings.StoredEntries` | vscode/cli/src/auth.rs:256-278 | the chunks of the loop are these entries, and together they reach the end of the value |
| `Keyrings.KeyringStorage.Clear` | vscode/cli/src/auth.rs:280-290 | the entries deleted, up to the first one that cannot be |
| `Keyrings.LastPartIs` | vscode/cli/src/auth.rs:260-271 | the last part has as many characters as the length leaves when divided by the step, and it ends the value |
| `Keyrings.StoreThenRead` | vscode/cli/src/auth.rs:234-278 | a value is read back exactly when its last part is non-empty without marker, or the entries left behind complete it |
| `Keyrings.StoreThenReadOverAnything` | vscode/cli/src/auth.rs:234-278 | a value whose last part is neither empty nor ends in the marker is read back over every earlier content |
| `Keyrings.OpenEndIsNotReadBack` | vscode/cli/src/auth.rs:234-278 | any other value is not read back from a keyring that was empty, so the condition is exact |
| `Keyrings.FullLastChunkIsLost` | vscode/cli/src/auth.rs:263-267 | a value whose last chunk is full is not found in a keyring that was empty |
| `Keyrings.ClearAfterRestart` | vscode/cli/src/auth.rs:280-290 | with new handles clearing succeeds exactly when a value can be read, and then none can be read |

## Left out

- Loader: script loading, `fetch`, cached data, configuration, statistics, build information, duplicate warnings and the printed cycle path; only "requested", "defined" and "failed" remain.
- Loader: factories are opaque; they do not define or require anything while they run, and a throwing one is caught. Exports are represented by whose they are and whether they are final.
- Loader: a plugin answers later, as a definition of the resource, or reports an error for it.
- `LoadPluginDependency`: a plugin whose `load` answers before it returns is not represented, so its contract speaks only of the request and of what is known.
- Loader: `_currentAnonymousDefineCall`, `synchronousRequire` and `toUrl`.
- Source maps: the fifth field of a segment (the name) is dropped, as in the source.
- `CopyMappings`: the copied map has segments of 1, 4 or 5 fields, source indices in range, values below 2^30 in magnitude and no more semicolons than lines; the source copies a map that violates this without complaint, but such a map has no meaning that the copy could keep.
- `AddSource`: maps are well formed in the sense of `CopyMappings`, and mapped lines are lines of the content; what is written for other maps is not described. `=`, which is in the digit table of the source and never occurs in a map, counts as outside the alphabet.
- `VisitModule`: the maps of all modules are well formed as for `AddSource`, or have a byte outside the alphabet.
- `BundleWithDependencies`: the same maps as for `VisitModule`.
- Bundler: `sourceRoot`, the JSON and base64 form of the final comment (an arbitrary function of the map here), HTTP, file watching and the asynchronous module loader; the finished graph is the input.
- `addString` is `addBuffer` on the encoded text.
- CSS paths: the scanning of `url(...)` in style sheets and the inlining of images. The algebra is proved for paths without empty folder names; `JoinPaths` and `RelativePath` themselves are modelled for every string.
- RPC: serialization, the replies to incoming requests, and liveness of the select loop; incoming streams, whose order depends on spawned tasks.
- RPC: the capacities of the outgoing channel and of the duplex buffers, which only delay steps.
- `Decode`: reserving buffer space, which changes no bytes.
- Keyring: encryption, login and token refresh; the sealed value is a string whose positions are all character boundaries, and both limits of the source are instances of the limit.
- `download_cache.rs`, `state.rs` and `singleton.rs`: list invariants that would add only easy members, or correctness that rests on operating system locks.
