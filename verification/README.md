# Windower core: verified models

Windower's core library contains a number of self-contained algorithms between its hooks and its Lua bindings. This
project models them in Dafny, branch by branch, and proves what they are for. It does not depend on anything else:
`dafny verify dfyconfig.toml` checks all of it.

| files | what they model |
|---|---|
| `BindGrammar` ... `BindParser` | the table-driven LL(1) parser for bind strings, from the formal grammar in its comment to the loop over `state`, `marks` and `index` |
| `BindingTable`, `BindingManager` | the sorted list of bindings and the dispatch of key presses |
| `Graphs`, `Packages`, `CycleReport`, `LoadSearch`, `UnloadSearch`, `PackageManager` | packages as a dependency graph, load order, unload order and the cycle report |
| `AddonManager`, `UnloadSteps`, `UnloadAlone`, `UninstallCommand` | the loaded addons, kept closed under dependencies, and `/uninstall` |
| `Worklists`, `Catalogue`, `LibrarySearch`, `Texts` | the two worklists without a visited set, and the catalogue of available packages |
| `PacketFrames`, `PacketQueue`, `PacketOrder` | packet headers, the queue that reframes a packet stream into a bounded buffer, and the order in which packets are handled |
| `Runes`, `Escapes`, `Arguments`, `CommandNames` | the three automata of the command language |
| `CommandRegistry`, `CommandManager` | the layered registry of commands and its search with names that may leave the component open |
| `Downloader` | the completion protocol between the download thread and awaiting coroutines, as a state machine over its steps |
| `Instructions`, `Trampoline` | the instruction-length decoder, jumps, and the construction of a hook trampoline |
| `Scheduler` | the cooperative scheduler |
| `Bytes`, `Sequences` | words of bytes; sequences without repetitions, turned around, or split by a mask |

Where the source updates something in place, a class or an array loop does so here, and its contract ties the new
state to a function of the old one; the theorems are about these functions, over all inputs and all runs.

## What comes out

The main results hold for every input, every run or every interleaving:

- The parse table is exactly the commented grammar. With `match_all` a token sequence is accepted if and only if the
  grammar derives it, and the spans recorded are those of the derivation; without it the longest derivable prefix is
  cut off; an error is reported at the first token that cannot be there, with the number of the first symbol that is
  open there and the beginning of the key or flag that is being read. The branches for internal errors cannot be taken,
  and the loop ends.
- `load_order` gives a load order whenever it returns one, and when it fails something really stands in the way; as long
  as no package in reach has an optional dependency that leads back to it, it fails exactly when the names cannot be
  loaded. `unload_order` always ends, also on cyclic graphs, and lists exactly what depends on the names.
- The loaded addons are closed under required dependencies after every call, and after every single insertion. For
  single removals there is an exact condition, below. `/uninstall` either refuses and changes nothing or leaves nothing
  that depends on what is gone, and the addons outside the unload order stay loaded.
- No packet is lost or duplicated; injected packets keep their order; what is written is, byte for byte, the packets
  handled and not blocked, and reads back as the same packets.
- The scheduler resumes a task only when the reading of the clock taken for it says so, and becomes idle only after a
  round that has found every task waiting.
- A key press fires the most recently bound of the most specific bindings that match, in terms of keys, flags and the
  history alone.
- Escaped and joined arguments are taken apart into the same arguments; a limit cuts the list off and leaves a rest that
  holds the missing ones. Numbers printed in hexadecimal behind `\u` decode to themselves.
- No wake-up is lost between the downloader and an awaiting coroutine, and none comes twice or too early. Files are
  downloaded in the order in which they were submitted.
- A hooked function leads to the callback, and the moved instructions lead back behind the patch; what is moved is whole
  instructions by the table of opcodes.

Some properties one would expect do not hold of the code. Each has its exact condition, or a concrete counterexample:

- An escape sequence `\u` with three hexadecimal digits and a closing brace is not in the grammar, but state 7 of the
  table of `unescape` takes it (`core/src/command_manager.cpp:182`). `Escapes.MeansGrammar`: the scanner gives a text the
  meaning of the grammar if and only if this form does not come up in it.
- A binding with the flag `up` never fires, and nothing fires when a key is released: `key_state` sets the key to
  released before it asks for every key of the binding to be pressed. `BindingTable.UpNeverMatches`.
- `out_of_date` and `find_dependency` keep no visited set; they end if and only if there is no cycle to get lost in
  (for `find_dependency`: or the package is found first). `Catalogue.OutOfDateNeverEnds`,
  `LibrarySearch.SearchNeverEnds`.
- `throw_cycle_error` need not end, in a state that the search gets into: `LoadSearch.ReportCanHang`. Its way follows the
  search stack from the package met again up to a frame from which it goes back; it ends if and only if it goes back to
  that package, or below it and up to it again (`CycleReport.ReportEndsExactly`, `PackageManager.ReportIsRound`). It
  ends, with the segment of the search stack, when no frame has an optional dependency that leads back
  (`LoadSearch.ReportIsSegment`).
- While an unload runs through a cycle of required and optional dependencies, an addon can be left for a moment without
  something it requires (`AddonManager.UnloadStepCanBreak`, with what the search returns). `UnloadSteps.StepsKeepGoodExactly`:
  no removal of any unload does that, in whatever order the packages are searched, if and only if for each required addon
  and each way that leads on from it, those that require it reach it without passing that way. Cycles by themselves do
  no harm (`AddonManager.CycleOnTheWay`): it is enough that required addons are reached over a last edge on no cycle
  (`AddonManager.EntryIsEnough`). The program searches its packages sorted by name, so their order is a matter of what
  they are called. For a given order, `UnloadAlone.SingleNamesDecide`: all unloads keep the addons closed if and
  only if in the unload order of each single package whatever requires an addon comes before it.
- A load order does not mean that no cycle is in reach: `Packages.OrderedThoughNotLoadable`. What has one is loadable if
  and only if no optional dependency in reach leads back. `Packages.OrderedIsLoadable`.
- Frames with an id of 512 or more, or with a size that is no multiple of 4 or exceeds 504, do not survive their header.
  `PacketFrames.StreamRoundTrip` states it as an equivalence.
- Packets of the client that are delayed come before the queue in reverse order (`PacketOrder.DelayTurnsAround`). One
  call keeps their order if and only if it delays none but possibly the last (`PacketOrder.SplitInOrder`), and a run
  does if and only if every call that brings any does so and finds none of them waiting (`PacketOrder.ClientsInOrder`).
  A caller who gives every call room for all of its packets keeps it (`PacketOrder.RoomyRunInOrder`).
- A packet larger than the buffer holds up everything queued behind it (`PacketQueue.LargePacketHoldsUp`).
- The wait that `run_until_idle` returns takes the least frame without regard to the frame counter going round, but a
  wait is compared with regard to it: it need not have passed when a task is ready. If half the range of the counter
  holds the distance of all frames that the tasks wait for and the number of frames by which they may be ready, nothing
  is missed (`Scheduler.NothingMissed`, part of the contract of `RunUntilIdle`), and if not there is a run that misses a
  task (`Scheduler.MissesATask`).
- `trampoline` writes beyond its array when more than fifteen bytes have to be moved: `Trampoline.OneByteTooMany` is such
  code, and `Trampoline.OverrunsExactly` says when that is. It hangs on a chain of jumps that never ends, which is one
  that has as many jumps as there are addresses (`Trampoline.JumpsForEver`).
- Whoever awaits a download that is still queued when the downloader is destroyed is never continued
  (`Downloader.StoppedLeavesQueued`).
- A function that was hot-patched cannot be hooked again: `follow_jumps` takes the distance of its short jump without a
  sign and goes on 251 bytes behind it instead of five before it (`Trampoline.HotPatchLeadsAstray`).
- `unregister_command` compares with views into the element that is being moved over. With names stored in place it
  removes just that command all the same: `CommandManager.RemoveFound`.
- Expired commands that were not purged change what becomes of a command if and only if some layer has several matches,
  one of them expired, and no layer before it has several or a live one (`CommandRegistry.ExpiredMatterExactly`): then
  they are among the options of an ambiguity error.
- The comparison of command names is no weak order, yet `equal_range` is right on sorted layers.
  `CommandRegistry.NotTransitive`, `CommandRegistry.EqualRange`.

Points at which names or comments of the source do not say what its code does, and the model follows the code: the first
component of a parsed flag is true for a flag without `~`; the `*_size` fields of parsed keys and flags hold end
offsets; the displacement of a short jump is taken without a sign.

## Model

| member | source | states |
|---|---|---|
| `BindTables.PushedIsPushMap` | core/src/binding_manager.cpp:142-175 | a production is pushed from the table entry by entry, so that its first symbol ends up on top |
| `BindTables.TableIsSound` | core/src/binding_manager.cpp:61-175 | a table entry that is no error names a rule of the commented grammar for its nonterminal |
| `BindTables.TableIsComplete` | core/src/binding_manager.cpp:61-175 | whenever a rule can be the right one for the lookahead, the table entry is no error and names that rule |
| `BindStacks.TypedExpand` | core/src/binding_manager.cpp:142-175 | every production keeps the stack typed by the number of pending marks, and pushes no action other than the three |
| `BindStacks.RankFalls` | core/src/binding_manager.cpp:405-447 | expanding a nonterminal lowers a rank of the stack that depends on the lookahead, although two nonterminals push themselves again |
| `BindForests.Predicts` | core/src/binding_manager.cpp:61-175 | the table entry for the lookahead is the production of any derivation whose yield begins with it |
| `BindForests.SmallestForest` | core/src/binding_manager.cpp:61-97 | whatever is on the stack can still be completed to a derivation |
| `BindFinds.FinalExpand` | core/src/binding_manager.cpp:201-244 | the marks and actions of a production record exactly the keys and flags of the derivation node it stands for |
| `BindRuns.RunFollows` | core/src/binding_manager.cpp:395-460 | every run traces a derivation: the tokens taken are the beginning of its yield, all of it if the run succeeds, and what was recorded is what the derivation holds |
| `BindRuns.RunIsForced` | core/src/binding_manager.cpp:395-460 | a derivation that agrees with the input up to where the run stops is the one the run follows to the end |
| `BindRuns.Accepts` | core/src/binding_manager.cpp:395-460 | with `match_all` a token sequence is accepted if and only if the grammar derives it, with the keys and flags of its derivation |
| `BindRuns.CutsLongestPrefix` | core/src/binding_manager.cpp:405-425 | without `match_all` a success cuts off a derivable prefix, and no longer prefix can even be continued to a derivable text |
| `BindRuns.NotViable` | core/src/binding_manager.cpp:410-431 | no prefix that includes the token at which a run stops can be continued to a derivable text |
| `BindRuns.WholeDescriptor` | core/src/binding_manager.cpp:395-460 | a derivable text parses the same with and without `match_all` |
| `BindErrors.RunExplains` | core/src/binding_manager.cpp:395-460 | every run follows a leftmost derivation whose last line says how it ends: with nothing open, without `match_all` early at a chord tail that the next token does not go on with, or in error at the first open symbol |
| `BindErrors.OneDerivation` | core/src/binding_manager.cpp:395-460 | there is one such derivation, with and without `match_all` |
| `BindErrors.ErrorIsInside` | core/src/binding_manager.cpp:413-431 | the tokens taken and anything derived from the open symbols make a descriptor, and likewise for the part being read and the tokens since its beginning |
| `BindErrors.ErrorIsFirst` | core/src/binding_manager.cpp:373-457 | the error mark is the first token after which nothing derivable can follow, or the end of a text that is only the beginning of one; the derivation up to there explains the code and the other offsets: the state is the first symbol still open, P or S goes by the table entry for it, and the error begins with the key, the part behind a colon or the flag name that is being read, or else at the mark; BIND:S10 means that something follows a whole descriptor |
| `BindParser.Push` | core/src/binding_manager.cpp:438-443 | the loop over `push_map` leaves the production on the stack |
| `BindParser.ParseBindString` | core/src/binding_manager.cpp:395-460 | the loop ends and its result is what the grammar says: recognised, cut off, or in error at the first wrong token with the code and offsets that the derivation up to there explains; no internal error |
| `BindParser.StartIsNotEnd` | core/src/binding_manager.cpp:433-437 | the state with the number of the end of input is never taken for it |
| `BindingTable.TableIsExact` | core/src/binding_manager.cpp:1493-1499 | after any history the list holds exactly the bindings bound and not unbound since, ordered by class and newest first within a class |
| `BindingTable.TriggersDiffer` | core/src/binding_manager.cpp:1605-1611 | no two bindings in the list compare equal |
| `BindingTable.ClassAround` | core/src/binding_manager.cpp:1216-1225 | in a sorted list the two bounds enclose exactly the bindings neither less nor more specific |
| `BindingTable.PicksMostRecentOfMostSpecific` | core/src/binding_manager.cpp:1376-1394 | over any history, the binding picked matches and beats every other binding in force that matches, and none is picked only if none matches |
| `BindingTable.PicksHighestRank` | core/src/binding_manager.cpp:1376-1394 | over any history, the binding picked is in force, asks for the key that changed, has all its keys down and each flag of its mask as asked; no other such has more keys, or as many and more flags, or as many of both and a later bind; none is picked only if there is no such |
| `BindingTable.SidesOfOneKey` | core/src/binding_manager.cpp:1331-1344 | exactly the left and right modifier keys of the system device share a state |
| `BindingTable.UpNeverMatches` | core/src/binding_manager.cpp:1348-1389 | a binding that asks for the flag `up` matches no event |
| `BindingManager.RemovedIsUnbound` | core/src/binding_manager.cpp:1403-1405 | removing the picked binding does what unbinding it does |
| `BindingManager.BindingManager.LowerBound` | core/src/binding_manager.cpp:1607 | the bisection finds the lower bound |
| `BindingManager.BindingManager.UpperBound` | core/src/binding_manager.cpp:1609 | the bisection finds the upper bound of the rest of the list |
| `BindingManager.BindingManager.Insert` | core/src/binding_manager.cpp:1605-1611 | inserting is a bind: the list is the one of the history with it |
| `BindingManager.BindingManager.Unbind` | core/src/binding_manager.cpp:1493-1499 | removing all equal bindings is an unbind |
| `BindingManager.BindingManager.RemoveDevice` | core/src/binding_manager.cpp:1318-1322 | unregistering a device removes the bindings that involve it and no others |
| `BindingManager.BindingManager.RemoveElement` | core/src/binding_manager.cpp:1403-1405 | removing a binding that is compared with where it stands in the list removes that one alone, whatever a move leaves behind |
| `BindingManager.BindingManager.SetKey` | core/src/binding_manager.cpp:1348-1414 | the handler that runs is that of the binding that ranks highest among those in force that answer the key, and none runs exactly if there is none; what is captured, what is removed, and what the client sees of the key; a release does nothing else |
| `Graphs.RankOf` | core/src/addon/package_manager.cpp:698-740 | an acyclic graph has a rank that falls along every edge, by which the worklists are shown to end |
| `Packages.NeedsComeBefore` | core/src/addon/package_manager.cpp:1035-1065 | in a load order everything a package requires, directly or not, comes before it |
| `Packages.LoadOrderHasNoRequiredCycle` | core/src/addon/package_manager.cpp:1035-1065 | if there is a load order, no cycle of required dependencies is reachable |
| `Packages.OrderedIsLoadable` | core/src/addon/package_manager.cpp:1035-1065 | what has a load order can be loaded if and only if no package in reach has an optional dependency that leads back to it |
| `Packages.OrderedThoughNotLoadable` | core/src/addon/package_manager.cpp:1035-1065 | a package with an optional dependency on itself has a load order, though it lies on a cycle |
| `CycleReport.NeverReturns` | core/src/addon/package_manager.cpp:1096-1117 | a report that has not come back to its start after as many steps as there are packages never does |
| `CycleReport.ReportIsCycle` | core/src/addon/package_manager.cpp:1096-1117 | a report that ends lists a simple dependency cycle, when every gray package has a gray dependency |
| `CycleReport.ReportGoesRound` | core/src/addon/package_manager.cpp:1096-1117 | a report that follows the stack and then goes back to its start, or below it and up again, ends and lists that way round |
| `CycleReport.ReportEndsExactly` | core/src/addon/package_manager.cpp:1096-1117 | it ends if and only if its way back leads there |
| `LoadSearch.Enter` | core/src/addon/package_manager.cpp:1044-1050 | entering a white package keeps the search invariant |
| `LoadSearch.Advance` | core/src/addon/package_manager.cpp:1051-1060 | so does coming back from a dependency |
| `LoadSearch.Leave` | core/src/addon/package_manager.cpp:1060-1064 | and so does finishing a package: it is listed after all it requires |
| `LoadSearch.MeetsGray` | core/src/addon/package_manager.cpp:1040-1043 | a gray package met again closes a dependency cycle |
| `LoadSearch.ReportsWay` | core/src/addon/package_manager.cpp:1035-1117 | in every state of the search the report follows the stack from the package met again and goes back from some frame: from the top to that package, or from one with an optional dependency that leads back |
| `LoadSearch.ReportIsSegment` | core/src/addon/package_manager.cpp:1096-1117 | without such an optional dependency the report ends and lists exactly the segment of the search stack |
| `LoadSearch.ReportCanHang` | core/src/addon/package_manager.cpp:1096-1117 | two packages and a state of the search for them in which the report never comes back |
| `UnloadSearch.TransitiveDependentsFirst` | core/src/addon/package_manager.cpp:1067-1094 | a direct dependent on which an entry does not depend in turn comes before the entry, with all that depends on that dependent |
| `UnloadSearch.SearchIsSound` | core/src/addon/package_manager.cpp:1009-1025 | between names everything coloured is listed, with all that depends on it, and every entry is cleared: before it stands all that depends on it, but for what passes a way on from it |
| `UnloadSearch.UnwindReaches` | core/src/addon/package_manager.cpp:1067-1094 | a visit lists only what leads to the package without passing what was coloured before |
| `UnloadSearch.FinishedIsUnloadOrder` | core/src/addon/package_manager.cpp:1067-1094 | what the search returns is an unload order, whatever the order of the packages |
| `PackageManager.PackageManager.Clear` | core/src/addon/package_manager.cpp:1027-1033 | all packages are white, whatever an aborted call left behind |
| `PackageManager.PackageManager.ThrowCycleError` | core/src/addon/package_manager.cpp:1096-1117 | the names up to the first return to the start, or a hang if there is none |
| `PackageManager.ReportIsRound` | core/src/addon/package_manager.cpp:1096-1117 | during the search the report is its way round through the stack, or a hang if that leads nowhere, which takes an optional dependency that leads back |
| `PackageManager.PackageManager.TopologicalSort` | core/src/addon/package_manager.cpp:1035-1065 | the recursion ends and extends the results to everything reachable, or blames a missing package or a cycle that is there |
| `PackageManager.PackageManager.LoadOrder` | core/src/addon/package_manager.cpp:986-1007 | a result is a load order: distinct, exactly what is reachable, each package after what it requires and after its installed dependencies not on a cycle with it; an error names a real obstacle; when no optional dependency in reach leads back, success is equivalent to being loadable and a reported cycle is one of required dependencies |
| `PackageManager.PackageManager.ReverseTopologicalSort` | core/src/addon/package_manager.cpp:1067-1094 | the recursion ends, also on cycles, and does to results and colours what the specification of the search says |
| `PackageManager.PackageManager.UnloadOrder` | core/src/addon/package_manager.cpp:1009-1025 | the order is the one of the search over the packages in the order of the map: exactly the installed names and all that depends on them, at most as many entries as names and packages together, each cleared |
| `PackageManager.PackageManager.Uninstall` | core/src/addon/package_manager.cpp:477-492 | the named packages are gone from the installed ones and no others |
| `AddonManager.LoadKeepsGood` | core/src/addon/addon_manager.cpp:131-152 | loading along a load order keeps the loaded addons distinct and closed after every insertion |
| `AddonManager.UnloadKeepsGood` | core/src/addon/addon_manager.cpp:154-175 | unloading along an unload order does so after every removal if there is always a way past, and at the end in any case |
| `AddonManager.EntryIsEnough` | core/src/addon/addon_manager.cpp:154-175 | there is if each required addon is reached over a last edge that lies on no cycle |
| `AddonManager.AcyclicIsEnough` | core/src/addon/addon_manager.cpp:154-175 | with acyclic dependencies there is |
| `AddonManager.CycleOnTheWay` | core/src/addon/addon_manager.cpp:154-175 | three packages on whose way lies a cycle, and still there is always a way past |
| `UnloadSteps.CanBreak` | core/src/addon/addon_manager.cpp:154-175 | if those that require an addon do not reach it past some way on from it, there is an order of the packages in which the search for a package at the end of that way lists the addon first |
| `UnloadSteps.GoesDown` | core/src/addon/package_manager.cpp:1067-1094 | with the packages in a suitable order the search goes down a given way first |
| `UnloadSteps.InTurnKeepsGood` | core/src/addon/addon_manager.cpp:154-175 | the removals along a computed order keep any closed set of addons closed if and only if in it whatever requires an addon comes before it |
| `UnloadSteps.StepsKeepGoodExactly` | core/src/addon/addon_manager.cpp:154-175 | every removal of every computed unload order keeps the loaded addons closed, in whatever order the packages are searched, if and only if there is always a way past |
| `UnloadAlone.UnwindAlike` | core/src/addon/package_manager.cpp:1067-1094 | colouring a set of packages and all that depends on them beforehand changes nothing in what a visit does outside that set |
| `UnloadAlone.SingleNamesDecide` | core/src/addon/addon_manager.cpp:154-175 | for given packages in a given order, all unloads keep the addons closed after every removal if and only if the orders of single packages have whatever requires an addon before it |
| `AddonManager.UnloadStepCanBreak` | core/src/addon/addon_manager.cpp:154-175 | what the search returns for two addons on a cycle with an optional dependency, and that the first removal breaks it |
| `AddonManager.EveryRunIsGood` | core/src/addon/addon_manager.cpp:56-106 | the invariant holds after every run of calls, including loads cut short by a failing constructor |
| `AddonManager.EveryStepIsGood` | core/src/addon/addon_manager.cpp:131-175 | it also holds inside the next call, after each step of a load, and after each step of an unload if there is always a way past |
| `AddonManager.FilteredUnloads` | core/src/addon/addon_manager.cpp:66-88 | leaving out of the unload order what is not loaded makes no difference |
| `AddonManager.AddonManager.LoadPackages` | core/src/addon/addon_manager.cpp:131-152 | the loop stops exactly at the first package whose constructor runs and fails, and has loaded what comes before it |
| `AddonManager.AddonManager.UnloadPackages` | core/src/addon/addon_manager.cpp:154-175 | the loop erases exactly the addons of the order |
| `AddonManager.AddonManager.Load` | core/src/addon/addon_manager.cpp:56-59 | a load along a load order of the names up to the first failing constructor, all of it if none fails; or nothing changed and an error that names an obstacle, exactly when the names are not loadable if no optional dependency in reach leads back |
| `AddonManager.AddonManager.Unload` | core/src/addon/addon_manager.cpp:61-64 | an unload along the order that the search computes for the names |
| `AddonManager.AddonManager.Reload` | core/src/addon/addon_manager.cpp:66-88 | an unload of the names and their dependents followed by a load of the names, with the same contract |
| `AddonManager.AddonManager.UnloadAll` | core/src/addon/addon_manager.cpp:90-93 | an unload of all that is loaded along an unload order, after which nothing is left |
| `AddonManager.AddonManager.RaiseError` | core/src/addon/addon_manager.cpp:123-129 | an unload of the addon in error along an unload order; all that is not in the order stays loaded |
| `UninstallCommand.WithinArgs` | core/src/command_handlers.cpp:123-135 | the unload order stays within the arguments exactly when no other package depends on one of them |
| `UninstallCommand.Dependents` | core/src/command_handlers.cpp:123-135 | the dependents are those of the unload order that were not asked for, last one first |
| `UninstallCommand.Uninstall` | core/src/command_handlers.cpp:117-156 | it refuses, listing all dependents last one first and changing nothing, exactly when something else depends on an argument; otherwise nothing left depends on what is gone, and the loaded addons are those of an unload of the arguments |
| `Worklists.Unfolds` | core/src/addon/package_manager.cpp:704-737 | replacing an item by what it depends on lowers the sum of path counts |
| `Worklists.NoCycleIsAcyclic` | core/src/addon/package_manager.cpp:704-737 | without a cycle that is reachable from the names, the reachable part of the graph is acyclic |
| `Catalogue.BisectionAgrees` | core/src/addon/package_manager.cpp:712-716 | on a sorted catalogue the position found by bisection holds the name exactly when a linear lookup finds it |
| `Catalogue.Catalogue.LowerBound` | core/src/addon/package_manager.cpp:712-716 | the bisection finds the lower bound |
| `Catalogue.Catalogue.LoadSource` | core/src/addon/package_manager.cpp:932-984 | the catalogue stays sorted, and a name that is already there keeps its entry |
| `Catalogue.Catalogue.ReloadSources` | core/src/addon/package_manager.cpp:686-696 | for every name the first source that has it wins |
| `Catalogue.Catalogue.OutOfDate` | core/src/addon/package_manager.cpp:698-740 | exactly the reachable available packages that are absent, or older and updatable; the names reported as missing are exactly the reachable ones neither available nor installed; both in the order, and as often, as the rounds of the loop come to them |
| `Catalogue.OutOfDateNeverEnds` | core/src/addon/package_manager.cpp:704-737 | with a reachable cycle the worklist is never empty |
| `LibrarySearch.FindDependency` | core/src/addon/addon.cpp:143-216 | the package is found if and only if a way of installed packages leads to it from a dependency, on which all but the last are libraries |
| `LibrarySearch.ReachedByLibraries` | core/src/addon/addon.cpp:143-216 | what is reachable in the graph that is searched is what such a way leads to |
| `LibrarySearch.AddInstalled` | core/src/addon/addon.cpp:164-172 | the installed dependencies of a library are queued in order |
| `LibrarySearch.Search` | core/src/addon/addon.cpp:192-210 | the loop over the queue ends and finds the package exactly when it can be reached |
| `LibrarySearch.ClosesIn` | core/src/addon/addon.cpp:192-210 | while a package is on the way each round lowers what is left to search before it comes up, cycles or not |
| `LibrarySearch.SearchNeverEnds` | core/src/addon/addon.cpp:192-210 | if there is a reachable cycle and no way to the package, the queue is never empty |
| `Texts.BeforeIsTotal` | core/src/addon/package_manager.cpp:713-715 | the order of strings is total |
| `Texts.BeforeIsByFirstDifference` | core/src/addon/package_manager.cpp:713-715 | the order of names is decided by the first difference |
| `PacketFrames.HeaderRoundTrip` | core/src/packet_queue.cpp:32-53 | id and size survive the header exactly when they fit it |
| `PacketFrames.ReadRepresentable` | core/src/packet_queue.cpp:114-122 | whatever is read from an input fits a header |
| `PacketFrames.StreamRoundTrip` | core/src/packet_queue.cpp:114-139 | reading what was written gives the same frames if and only if each fits a header |
| `PacketFrames.CountersOnly` | core/src/packet_queue.cpp:173-193 | two streams of the same frames differ in nothing but the counters |
| `PacketFrames.WrittenIsLaidOut` | core/src/packet_queue.cpp:32-53 | each frame written lies behind those before it: id and size packed into two bytes, the counter in the next two, low byte first, then the data |
| `PacketFrames.ReadByBytes` | core/src/packet_queue.cpp:114-122 | reading by the bytes of the header: a frame, or past a header that announces more than there is or less than itself |
| `PacketQueue.FeedSplits` | core/src/packet_queue.cpp:114-139 | packets that fit are handled in order; the others end up before the queue, last one first, and then not even that one fits |
| `PacketQueue.DelayedWhen` | core/src/packet_queue.cpp:124-133 | a packet is delayed exactly when what was written before leaves it too little room |
| `PacketQueue.DrainsPrefix` | core/src/packet_queue.cpp:141-147 | packets are taken off the front of the queue up to the first that does not fit |
| `PacketQueue.ProcessingSplits` | core/src/packet_queue.cpp:103-150 | a call handles the fitting packets and then a first part of the queue, none of it if any packet was delayed; writing never exceeds the buffer |
| `PacketQueue.ProcessingWrites` | core/src/packet_queue.cpp:103-194 | what a call puts out for each packet it handles: nothing if blocked, the own id and data if unchanged or the modification exceeds the room left, the id and data of the handler otherwise |
| `PacketQueue.EveryRunConserves` | core/src/packet_queue.cpp:97-150 | over every run each packet that arrived was handed to the handler once or is still queued, once |
| `PacketQueue.InjectedInOrder` | core/src/packet_queue.cpp:97-150 | over every run injected packets are handled in the order of injection |
| `PacketQueue.CapacityIsLargest` | core/src/packet_queue.cpp:107-112 | the buffer has the largest size asked for so far |
| `PacketQueue.LargePacketHoldsUp` | core/src/packet_queue.cpp:141-147 | a packet at the front that is larger than the buffer keeps the whole queue behind it waiting until a larger buffer is asked for |
| `PacketQueue.OutputReadsBack` | core/src/packet_queue.cpp:103-193 | over every run, if injected and modified packets fit a header, each output reads back as exactly the packets written |
| `PacketQueue.Transparent` | core/src/packet_queue.cpp:103-193 | with nothing queued or changed and room enough, the output is the input but for the counters |
| `PacketQueue.PacketQueue.Queue` | core/src/packet_queue.cpp:97-101 | the packet is at the back of the queue |
| `PacketQueue.PacketQueue.Write` | core/src/packet_queue.cpp:74-80 | the bytes are in the buffer behind those written before |
| `PacketQueue.PacketQueue.ProcessPacket` | core/src/packet_queue.cpp:157-194 | what the handler says is what is written, nothing if the packet is blocked; a modification that is too large is dropped for the original |
| `PacketQueue.PacketQueue.ProcessBuffer` | core/src/packet_queue.cpp:103-150 | the loops do to queue, buffer and log what the specification of a call says, and return, byte for byte with the counter of the input, the frames of the packets handled and not blocked |
| `PacketOrder.SplitInOrder` | core/src/packet_queue.cpp:114-139 | a call keeps the order of arrival of its packets if and only if it delays none but possibly the last |
| `PacketOrder.LineStands` | core/src/packet_queue.cpp:97-150 | over every run, which arrival each packet handled or queued is; each arrival is one of them |
| `PacketOrder.ClientsInOrder` | core/src/packet_queue.cpp:97-150 | over every run the packets of the client stay in the order of arrival if and only if every call that brings any delays none but possibly the last and finds none waiting |
| `PacketOrder.FirstFit` | core/src/packet_queue.cpp:114-139 | with a handler that enlarges nothing, packets that fit the buffer together are not delayed |
| `PacketOrder.FittingIsEnough` | core/src/packet_queue.cpp:114-139 | with such a handler none but possibly the last is delayed if all but the last fit together |
| `PacketOrder.FittingIsNeeded` | core/src/packet_queue.cpp:114-139 | with a handler that changes nothing, none but possibly the last is delayed only if all but the last fit together |
| `PacketOrder.RoomyRunInOrder` | core/src/packet_queue.cpp:97-150 | a run with room for all packets in every call keeps the packets of the client in order and leaves none of them waiting |
| `PacketOrder.DelayTurnsAround` | core/src/packet_queue.cpp:114-139 | three packets of which the third is handled and the second is queued before the first |
| `Runes.MultiplicationGivesDigit` | core/src/command_manager.cpp:231-234 | the multiplication and shift on 32 bits, as used in decoding, give the value of every hexadecimal digit |
| `Runes.WhitespaceIs` | core/src/unicode.cpp:390-393 | the code points taken for whitespace, of which no-break spaces are none |
| `Runes.AutoTranslateIs` | core/src/command_manager.cpp:315-319 | auto-translate phrases are all of the planes 15 and 16 but the last two code points of each |
| `Runes.HexDigitsAre` | core/src/command_manager.cpp:202-206 | the hexadecimal digits, in upper and lower case |
| `Escapes.Unescape` | core/src/command_manager.cpp:152-254 | the automaton puts out what the escape sequences mean, with digits by multiplication |
| `Escapes.MoveInside` | core/src/command_manager.cpp:172-196 | each entry of the table keeps the part of an escape sequence read so far meaningful, completes it, or gives it up as plain text |
| `Escapes.MeansGrammar` | core/src/command_manager.cpp:154-196 | the meaning is that of the commented grammar if and only if the short form does not come up |
| `Escapes.EscapedMeansItself` | core/src/command_manager.cpp:152-254 | an escaped text decodes to itself |
| `Escapes.FourDigitsMean` | core/src/command_manager.cpp:152-254 | `\u` and four digits printed from a number below 0x10000 decode to it |
| `Escapes.BracedDigitsMean` | core/src/command_manager.cpp:152-254 | `\u` and one to six digits in braces decode to the code point printed |
| `Escapes.ThreeDigitsMean` | core/src/command_manager.cpp:182 | and so do three digits before a closing brace, which the grammar does not have |
| `Arguments.ParseArguments` | core/src/command_manager.cpp:256-389 | the automaton puts out the arguments of the text up to the limit, unescaped, and then the rest if there is one |
| `Arguments.LimitCutsOff` | core/src/command_manager.cpp:349-389 | with a limit the arguments are the first of the unlimited ones, and those of the rest are the others |
| `Arguments.QuotedIsOne` | core/src/command_manager.cpp:256-389 | text in quotation marks of one kind is an argument by itself |
| `Arguments.ArgumentsRoundTrip` | core/src/command_manager.cpp:256-389 | escaping, joining and taking apart gives back every list of nonempty arguments without auto-translate phrases |
| `CommandNames.ParseCommand` | core/src/command_manager.cpp:47-145 | the ranges are the only ones the grammar allows; an error means there are none, and is at the first place nothing can follow, with the code for it and the range of the name that is in error |
| `CommandNames.ErrorIsFirst` | core/src/command_manager.cpp:72-81 | the table has an error entry only where no command goes on |
| `CommandNames.NameCharsAreRead` | core/src/command_manager.cpp:84-110 | the characters that names may be registered with are exactly those that a command may be spelled with |
| `CommandNames.SpelledNamesDerive` | core/src/command_manager.cpp:47-145 | a command spelled with registered names, with or without the component, is read as these names |
| `CommandRegistry.NotTransitive` | core/src/command_manager.cpp:710-718 | equivalence under the comparison of names is not transitive |
| `CommandRegistry.Partitioned` | core/src/command_manager.cpp:710-718 | along a sorted layer what is below a name comes first and what is above it last |
| `CommandRegistry.EqualRange` | core/src/command_manager.cpp:642-645 | the range found by bisection is exactly what matches the name |
| `CommandRegistry.RunsFirstLive` | core/src/command_manager.cpp:562-605 | a handler runs only if its tag is live and it is the only match of the first layer with a live match; otherwise an ambiguous layer is listed or no match is live |
| `CommandRegistry.ExpiredMatterWhenRefused` | core/src/command_manager.cpp:562-605 | leftover expired commands change the outcome exactly when one is among the options of an ambiguity error |
| `CommandRegistry.ExpiredMatterExactly` | core/src/command_manager.cpp:562-605 | the same by layers: some layer has several matches, one of them expired, and no layer before it several or a live one |
| `CommandManager.Registers` | core/src/command_manager.cpp:485-494 | inserting or replacing at the lower bound keeps a layer sorted and replaces at most the command of the same name |
| `CommandManager.SweptKeeps` | core/src/command_manager.cpp:562-570 | what is unregistered while a command is handled has expired and matches it |
| `CommandManager.SeenMatchesNone` | core/src/command_manager.cpp:497-504 | views of names into an element over which the next one has been moved match none of those after it |
| `CommandManager.RemoveFound` | core/src/command_manager.cpp:497-504 | removing with views of an element's own names removes that element alone |
| `CommandManager.CheckName` | core/src/command_manager.cpp:424-432 | the first character that is none of a name |
| `CommandManager.CommandManager.Register` | core/src/command_manager.cpp:465-494 | the layer holds the new command and everything else it held, or no change and an error, with the first wrong character of the name it is about |
| `CommandManager.CommandManager.Unregister` | core/src/command_manager.cpp:496-504 | the layer without the named command, the other layers as they were |
| `CommandManager.CommandManager.UnregisterFound` | core/src/command_manager.cpp:564-570 | unregistering with views of the names of the descriptor found does what unregistering its name does |
| `CommandManager.CommandManager.Find` | core/src/command_manager.cpp:633-668 | the search by bisection gives what a linear scan of the layers in order gives |
| `CommandManager.CommandManager.Handle` | core/src/command_manager.cpp:562-605 | the loop ends and runs the handler that is due, at most one |
| `Downloader.EveryRunKeeps` | core/src/downloader.cpp:384-522 | every interleaving keeps the protocol's invariant |
| `Downloader.ContinuedOnceAfterAllFiles` | core/src/downloader.cpp:384-421 | an awaiter is continued at most once, and not before all files of its job are processed |
| `Downloader.NoLostWakeUp` | core/src/downloader.cpp:398-415 | when the awaiter and the worker are both through with a job, the awaiter has been continued exactly once |
| `Downloader.StoppedLeavesQueued` | core/src/downloader.cpp:438-495 | the worker ends only when stopped, and a job not started by then is never complete nor its awaiter continued |
| `Downloader.InOrder` | core/src/downloader.cpp:480-522 | jobs start in the order of submission, each complete before the next |
| `Downloader.FilesAsSubmitted` | core/src/downloader.cpp:451-466 | in every run a job has the files it was submitted with |
| `Downloader.FetchedInOrder` | core/src/downloader.cpp:480-522 | the files downloaded are a first part of all files in the order of submission, and a complete job has all of its own and of the jobs before it |
| `Downloader.NeverStuck` | core/src/downloader.cpp:497-522 | a worker at a job can always go on, or the awaiter holding the mutex can, and each such step brings the job nearer to its end |
| `Downloader.NeverStuckIdle` | core/src/downloader.cpp:480-499 | an idle worker takes the first job of the queue, or ends when stopped, and waits exactly while there is neither |
| `Downloader.AwaiterNeverStuck` | core/src/downloader.cpp:398-415 | an awaiter that is not through can go on, or the worker that holds the mutex can and gives it back in at most three steps |
| `Downloader.AsksFirst` | core/src/downloader.cpp:398-401 | an awaiter is fresh exactly until it has asked whether the job is complete |
| `Instructions.PlainLength` | core/src/hooklib/x86.cpp:115-293 | a one-byte opcode without prefixes is decoded to a length of one to eleven |
| `Instructions.OpcodeByTable` | core/src/hooklib/x86.cpp:115-293 | the octal case distinction gives the length table by opcodes: which have a ModR/M byte, and which immediate |
| `Instructions.NextByTable` | core/src/hooklib/x86.cpp:310-336 | decoding takes prefixes, opcode, ModR/M and immediate by that table; it refuses opcodes of two bytes and the length sixteen |
| `Instructions.LooksInside` | core/src/hooklib/x86.cpp:310-336 | the length depends on no byte beyond the instruction |
| `Instructions.JumpLeads` | core/src/hooklib/x86.cpp:343-352 | a jump that was written is E9 with the distance, low byte first, from its end to where it is to lead, modulo 2^32, and is followed to there |
| `Instructions.FollowsByBytes` | core/src/hooklib/x86.cpp:396-421 | following goes where the bytes of a long or short jump lead, and stays where there is none |
| `Trampoline.PlainFits` | core/src/hooklib/trampoline.cpp:389-396 | of plain instructions five to fifteen bytes are moved |
| `Trampoline.StolenIsWhole` | core/src/hooklib/trampoline.cpp:389-396 | what is moved is a sequence of whole instructions by the table, as many as it takes for a jump |
| `Trampoline.OverrunsExactly` | core/src/hooklib/trampoline.cpp:389-399 | more than fifteen bytes are moved if and only if the last instruction, with its prefixes, reaches that far, and then it has prefixes |
| `Trampoline.OneByteTooMany` | core/src/hooklib/trampoline.cpp:389-399 | code of which sixteen bytes are moved |
| `Trampoline.Block.FollowJumps` | core/src/hooklib/x86.cpp:396-421 | the loop arrives at the end of the chain of jumps, or is still at a jump after as many as there are addresses |
| `Trampoline.JumpsForEver` | core/src/hooklib/x86.cpp:396-421 | then it is at a jump after any number of them |
| `Trampoline.Block.FindEnd` | core/src/hooklib/trampoline.cpp:390-395 | the loop ends behind the first whole instructions, by the table, that make room for a jump |
| `Trampoline.Block.Move` | core/src/hooklib/trampoline.cpp:398-406 | the block holds the moved instructions, the jump back and traps, and the thunk if there is one |
| `Trampoline.Block.Patch` | core/src/hooklib/trampoline.cpp:424-433 | the target holds the jump and traps up to the end of the moved instructions, and all other memory is as it was |
| `Trampoline.Block.HotPatch` | core/src/hooklib/trampoline.cpp:408-422 | the jump is in the room before the target, the short jump at the target, and all other memory is as it was |
| `Trampoline.Block.Hook` | core/src/hooklib/trampoline.cpp:376-435 | the whole construction: a hot patch exactly where there is room for one, and otherwise whole instructions are moved, by the table; or no change when an instruction is not known or the jumps never end; or, exactly when more than fifteen bytes are to be moved, an overrun |
| `Trampoline.HookLeads` | core/src/hooklib/trampoline.cpp:398-433 | in bytes: the target jumps to the callback or the thunk, with traps behind it up to the end of what was moved; the block holds the moved instructions, a jump back behind the patch, traps, and the thunk, which loads the callback and jumps to its own target; no other byte has changed |
| `Trampoline.HotPatchLeads` | core/src/hooklib/trampoline.cpp:398-422 | in bytes: a short jump back leads to the jump before the target, this one to the callback or the thunk; the block is as after any other hook; no other byte has changed |
| `Trampoline.HotPatchLeadsAstray` | core/src/hooklib/x86.cpp:383-416 | a hot-patched function has no room for another hot patch, and following its short jump leads 251 bytes past it |
| `Scheduler.LessLeft` | core/src/addon/scheduler.cpp:155-186 | a round that resumes a task leaves fewer resumptions to come |
| `Scheduler.PassedForHalf` | core/src/addon/scheduler.cpp:42-51 | a wait has passed if its time has and the frame counter has gone on by at most half of its range |
| `Scheduler.Scheduler.Round` | core/src/addon/scheduler.cpp:158-186 | one round looks at each task once that is not done, resumes exactly those that the reading of the clock finds ready, and an idle one has found every task waiting |
| `Scheduler.Scheduler.RunUntilIdle` | core/src/addon/scheduler.cpp:148-194 | it ends under any clock; each resumption has its own reading of the clock, at which the task was ready for what it was waiting for then; tasks come as far as their resumptions say; the survivors are in order, and the last round found each of them waiting; the result is exactly the least time and frame waited for after a look, and misses no task as long as the frames lie close together |
| `Scheduler.ReturnedWaitWithinHalf` | core/src/addon/scheduler.cpp:42-59 | a wait has passed whenever a later one is ready by up to so many frames, if and only if the distance of their frames and that number fit into half the range |
| `Scheduler.NothingMissed` | core/src/addon/scheduler.cpp:42-59 | if half the range holds the distance of all frames waited for and that number, the returned wait misses no remaining task that is ready by so many frames |
| `Scheduler.MissesATask` | core/src/addon/scheduler.cpp:148-194 | and if not, there is a run whose result misses a task |

## Left out

- The lexer of bind strings: parsing starts from token classes with their offsets. The test for emptiness in
  `next_token` (core/src/binding_manager.cpp:248) is inverted as written.
- Key names, locales, Unicode folding, `get_name` and the device slots of `register_device`; of `unregister_device`
  only its effect on the bindings. A key of a binding that its device does not have reads as released.
- Handlers of bindings, packets and commands are oracles; they do not call back into the object that runs them. So are
  the constructors of addons.
- The file system, HTTP and XML of the package manager and the downloader: installed and available packages are maps
  and lists, processing a file is one step. `package_version` is an ordered value. `find_dependency` is modelled outside
  developer mode.
- PackageManager.PackageManager.LoadOrder: when an optional dependency in reach leads back, the names are not loadable,
  but whether that leads to an error depends on the order of names and dependencies: the search passes over it if it
  meets the package while that is being visited.
- Catalogue.Catalogue.OutOfDate: requires that no cycle is reachable; with one it never returns.
- LibrarySearch.FindDependency: requires that the package can be found or no cycle is reachable; otherwise it never
  returns.
- Strings of the command language are sequences of code points; in UTF-8 every byte of a longer sequence falls into the
  class of other characters, so the automata do the same. `escape`, which does not append what comes after the last
  mark, aliases and the raw form of arguments are left out.
- CommandManager.CommandManager.Handle: takes the names of a descriptor by value when one of them, or of the element
  behind it, has more than fifteen characters. Such names are not stored in place, and the program may compare with text
  that has been released.
- Trampoline.Block.Hook: says of an overrun only that it happens, not what it overwrites, and requires that the
  instructions end before the address space does. Thread suspension and page protection are not modelled;
  agreement of the decoder with the instruction set is not claimed.
- Downloader.NeverStuck: one awaiter for each job; a second one would overwrite the first one's handle.
- Scheduler.Scheduler.RunUntilIdle: tasks are given by finitely many suspensions and do not schedule others.
- Settings, crash dumps, signature scanning, registry, input-method and kernel hooks, graphics and input devices, Lua
  bindings, the launcher and the user interface.
