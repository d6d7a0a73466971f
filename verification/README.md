# Verified models of the O-RAN simulation repository

Dafny models of the algorithms in this repository, with proofs of what they promise.
`dafny verify dfyconfig.toml` checks the project.

| file | what it models |
|---|---|
| `LoadAwareHandover.dfy`, `HandoverRuns.dfy`, `HandoverDelay.dfy`, `HandoverRules.dfy` | the load-aware handover logic module: one query, the module together with the UEs it moves as a state machine over whole runs, how late a handover may complete, and its rules in terms of the configuration, the raw reports and the log |
| `SimpleWalks.dfy`, `TypePaths.dfy` | the configuration-path gatherer: a depth-first search with two stacks over the graph of registered types |
| `DependencyOrder.dfy` | the layered order in which shared libraries are loaded |
| `ModuleNames.dfy` | library file names and the filter that recovers the module |
| `PyText.dfy`, `StyleEngine.dfy`, `StyleChecks.dfy`, `StyleRepairs.dfy` | text files, the line-by-line fixer with on/off guards, its line checks, and what each of them does to the characters of a line |
| `EventLog.dfy`, `EventAlignment.dfy`, `Heatmaps.dfy`, `HeatmapSeries.dfy`, `SequenceSplit.dfy` | the underserved-event pipeline: log, merge, alignment, heatmaps, centroid, data sets |
| `SchedulerBench.dfy` | the scheduler benchmark: event population and running statistics |
| `LargeTransfer.dfy` | the partial-write sender |
| `TraceMirror.dfy` | the two tracers that mirror each other's events |
| `Fairness.dfy` | Jain's fairness index in 64-bit arithmetic |
| `Common.dfy`, `Strings.dfy` | shared definitions |

Classes and methods follow the code that changes state; each is proved against
specification functions or predicates, and the lemmas say what those mean.

Findings about the code:

- "Several decisions in one RIC interval cannot overfill a cell" (README.md:227) holds for
  every query, without conditions on timing. Over whole runs, cells stay within their
  capacities exactly if handovers complete sooner after their command than the attempt
  timeout, because the reservation ends there.
- Clearing a pending handover when its UE has reached the target
  (lines 452-457 of the logic module) has no effect: the gate before it has already sent
  away every UE with a pending entry. The model keeps the step.
- `Uniquefy` receives its container by value, so repeated lines stay in the output.
- `dependency_order` has no check for lack of progress: on a cyclic or incomplete map it
  recurses until Python's limit, modelled as a number of frames.
- `filter_module_name` loses modules whose first part contains "rc".
- Tab expansion can create guard lines; the fixpoint holds all the same.
- The fairness index can be printed wrong once n times the sum of squares reaches 2^64,
  and always is if the square of the sum does not reach it; for equal counts it stays
  right unless the denominator wraps to zero.
- Heatmaps count a row for a foreign time, too, when that time is within the tolerance of the
  floating-point comparison and the row's node is underserved there.
- A send callback does not end on a socket that never blocks again and from some point on has
  space but takes nothing while bytes are left.
- When two improving cells are equally strong, the choice between them is left to the order
  that sorting happens to give; otherwise a query has one outcome.
- The class `[0-9.+-eE]` of the header pattern contains a range from `+` to `e`.

Taken as inputs: simulation time, random delays, repository reports, the socket's replies,
dictionary iteration orders, file contents, the type registry, and the conversion of text to
floating-point numbers.

## Model

| member | source | states |
|---|---|---|
| HandoverDelay.SafeDelayIff | contrib/oran/model/oran-lm-nr-2-nr-rsrp-handover-with-cell-load.cc:257-345 | The exact bound: as soon as some cell has a limit, runs whose handovers complete within a delay D after their command never overfill a cell if and only if D is below the attempt timeout |
| HandoverDelay.LateCompletionOverfills | contrib/oran/model/oran-lm-nr-2-nr-rsrp-handover-with-cell-load.cc:257-345 | For every configuration with a capped cell and every D that reaches the timeout, a whole run in one network of gNBs that ends with one UE too many in that cell: a command into the last place, the timeout, a query that drops the reservation and commands another UE there, and both arrivals; the reports are up to date and no query in the run could have had another outcome |
| HandoverDelay.TalkQuery | contrib/oran/model/oran-lm-nr-2-nr-rsrp-handover-with-cell-load.cc:257-714 | In any state with an open gate and a free place, a query in which one UE reports a strong cell has exactly one outcome: wait or command for that UE by its stopwatch, and nothing for the others |
| HandoverRuns.CapacityNeverExceeded | contrib/oran/model/oran-lm-nr-2-nr-rsrp-handover-with-cell-load.cc:232-345 | In every run of queries on reports that may be out of date but undercount no cell, clock advances, UEs entering and leaving, and handovers completing within a delay below the timeout, no cell with a positive entry in the capacity map ever serves more UEs than that entry, and no cell without an entry more than the common limit, if it is positive; even together with the handovers under way to it, and every young command still has its reservation |
| HandoverRuns.QueryKeepsCapacity | contrib/oran/model/oran-lm-nr-2-nr-rsrp-handover-with-cell-load.cc:257-345 | Several decisions in one query cannot overfill a cell: after the query, with all its commands, the UEs in a cell or heading for it are within the capacity; no timeout condition is needed for this |
| HandoverRuns.RunIsPaced | contrib/oran/model/oran-lm-nr-2-nr-rsrp-handover-with-cell-load.cc:399-410 | In every run two commands for one UE are at least the cool-down and at least the attempt timeout apart |
| HandoverRuns.TriggerWasHeld | contrib/oran/model/oran-lm-nr-2-nr-rsrp-handover-with-cell-load.cc:592-617 | With a positive time-to-trigger, every command in a run was preceded by a query that chose the same target at least that long before; every query in between that evaluated the UE chose that target or found no usable serving report |
| HandoverRuns.TriggerFires | contrib/oran/model/oran-lm-nr-2-nr-rsrp-handover-with-cell-load.cc:592-617 | Conversely, a UE that has been waiting for a cell for the time-to-trigger, and for which a query chooses that cell again, is commanded in that query |
| HandoverRuns.StopwatchKeepsGatesOpen | contrib/oran/model/oran-lm-nr-2-nr-rsrp-handover-with-cell-load.cc:383-410 | In every run, no gate is closed for a UE whose stopwatch is running |
| HandoverRules.StrongestIsChosenIff | contrib/oran/model/oran-lm-nr-2-nr-rsrp-handover-with-cell-load.cc:232-565 | In every query the strongest of the cells that beat the serving one, if strong enough, is chosen exactly when the UEs attached, pending and commanded so far leave a place by its own entry in the capacity map, or by the common limit when it has none; with an entry of 0 at any load |
| HandoverRules.ChosenIffRight | contrib/oran/model/oran-lm-nr-2-nr-rsrp-handover-with-cell-load.cc:232-565 | Without ties a cell is chosen exactly when some report of it exceeds the serving one by more than the hysteresis, some report is acceptable, it has a place, and every such cell ahead of it is full with fallback allowed; stated on the reports and the fields of the configuration |
| HandoverRules.ChoiceIsRight | contrib/oran/model/oran-lm-nr-2-nr-rsrp-handover-with-cell-load.cc:412-645 | Ties or not, a choice is right in that sense; a command names the gNB of the last serving report's cell, that report's RNTI and the chosen cell |
| HandoverRules.TooWeakIff | contrib/oran/model/oran-lm-nr-2-nr-rsrp-handover-with-cell-load.cc:517-537 | A UE is found too weak exactly when some better cell is below the acceptable value and all others are full with fallback allowed, ties or not |
| HandoverRules.ShutIffHeldBack | contrib/oran/model/oran-lm-nr-2-nr-rsrp-handover-with-cell-load.cc:383-410 | In every run a query passes a UE by exactly when it comes before the warm-up, less than the back-off after a logged low-RSRP decision about it, or less than the attempt timeout or the cool-down after a logged command for it |
| HandoverRules.LoadIsCount | contrib/oran/model/oran-lm-nr-2-nr-rsrp-handover-with-cell-load.cc:271-301 | The load of a cell is the number of listed UEs whose first serving report on carrier 0 names it with an RNTI, or which have no such report and are registered there |
| HandoverRules.FullIff | contrib/oran/model/oran-lm-nr-2-nr-rsrp-handover-with-cell-load.cc:318-345 | Reservations that stop at the limit make no difference: a cell is full exactly when attached, pending and commanded UEs together leave no place |
| HandoverRules.FirstServingIff | contrib/oran/model/oran-lm-nr-2-nr-rsrp-handover-with-cell-load.cc:281-290 | The first serving report on carrier 0, by its position |
| HandoverRules.LastServingIff | contrib/oran/model/oran-lm-nr-2-nr-rsrp-handover-with-cell-load.cc:421-437 | The last serving report on carrier 0, by its position |
| LoadAwareHandover.OranLm.GetHandoverCommands | contrib/oran/model/oran-lm-nr-2-nr-rsrp-handover-with-cell-load.cc:232-717 | One query: every UE has exactly one decision, justified in full by the reports and the effective loads at its turn (attached + reserved + commanded so far), with source gNB, RNTI and target of each command; UEs not listed keep their memory; for a cell with a command attached + pending + commanded stays within the cell's own limit, or the common one when it has none |
| LoadAwareHandover.QueryDetermined | contrib/oran/model/oran-lm-nr-2-nr-rsrp-handover-with-cell-load.cc:232-717 | When no UE sees two improving cells equally strong, decisions, commands and new memory of a query are determined by the reports and the memory: what is stated about a query admits one outcome |
| LoadAwareHandover.PickDetermined | contrib/oran/model/oran-lm-nr-2-nr-rsrp-handover-with-cell-load.cc:480-565 | For given reports and loads at most one search result fits its description, ties apart |
| LoadAwareHandover.LowIsLow | contrib/oran/model/oran-lm-nr-2-nr-rsrp-handover-with-cell-load.cc:517-537 | Low RSRP is told apart from keeping and from a target even when cells tie |
| LoadAwareHandover.OranLm.Evaluate | contrib/oran/model/oran-lm-nr-2-nr-rsrp-handover-with-cell-load.cc:381-714 | One UE: which of the six decisions is taken, exactly when, and what each leaves in the four maps and the load; other UEs' entries do not change |
| LoadAwareHandover.OranLm.PassGates | contrib/oran/model/oran-lm-nr-2-nr-rsrp-handover-with-cell-load.cc:383-410 | A UE is evaluated exactly when warm-up, back-off, pending handover and cool-down all permit it; only an expired back-off is forgotten |
| LoadAwareHandover.OranLm.Prune | contrib/oran/model/oran-lm-nr-2-nr-rsrp-handover-with-cell-load.cc:257-269 | Pending handovers survive exactly while their attempt is younger than the timeout |
| LoadAwareHandover.OranLm.Search | contrib/oran/model/oran-lm-nr-2-nr-rsrp-handover-with-cell-load.cc:464-565 | In terms of the reports: a chosen cell improves by the hysteresis, is acceptable and has room, and every stronger improving cell is full (or there is none, without fallback); low RSRP means an improving cell is unacceptable and all acceptable ones are full (or there are none, without fallback); keep means all improving cells are acceptable and full (without fallback: there is none, or a strongest one is) |
| LoadAwareHandover.OranLm.Conclude | contrib/oran/model/oran-lm-nr-2-nr-rsrp-handover-with-cell-load.cc:567-708 | From the search result to decision: back-off, stopwatch reset or start, command with source gNB, RNTI and target, and the reservation |
| LoadAwareHandover.PickTarget | contrib/oran/model/oran-lm-nr-2-nr-rsrp-handover-with-cell-load.cc:480-565 | The loop over sorted candidates stops at the first that beats the serving cell and is not passed over as full |
| LoadAwareHandover.Reserve | contrib/oran/model/oran-lm-nr-2-nr-rsrp-handover-with-cell-load.cc:322-345 | After reserving all pending handovers each cell's load is real + pending, stopped at the capacity, whatever the order of the map |
| LoadAwareHandover.CountServing | contrib/oran/model/oran-lm-nr-2-nr-rsrp-handover-with-cell-load.cc:249-301 | The load of every cell is the number of UEs attached to it, by serving report or else by registration |
| LoadAwareHandover.Collect | contrib/oran/model/oran-lm-nr-2-nr-rsrp-handover-with-cell-load.cc:412-445 | The serving entry is the last one on carrier 0, and the map holds the best RSRP of every measured cell |
| LoadAwareHandover.Candidates | contrib/oran/model/oran-lm-nr-2-nr-rsrp-handover-with-cell-load.cc:463-477 | The list holds exactly the measured known cells with their best RSRP, in descending order |
| LoadAwareHandover.BestIsMaximum | contrib/oran/model/oran-lm-nr-2-nr-rsrp-handover-with-cell-load.cc:439-444 | The best RSRP is a reported value of that cell and no report exceeds it; it is absent exactly when the cell has no report |
| SimpleWalks.ListingEnumeratesSimpleWalks | utils/print-introspected-doxygen.cc:489-572 | For every finite graph the listing from a root has exactly one line per edge-labelled simple walk, with its end type and joined labels, in lexicographic order of the walks |
| SimpleWalks.WalksExact | utils/print-introspected-doxygen.cc:489-572 | The walks behind a listing are exactly the simple ones that avoid the stack |
| SimpleWalks.WalksSorted | utils/print-introspected-doxygen.cc:489-572 | The walks come in strictly increasing lexicographic order of their edge numbers, hence each once |
| SimpleWalks.TraceMatches | utils/print-introspected-doxygen.cc:489-572 | Line by line, what the recursion appends is the list of end types and joined labels of those walks |
| SimpleWalks.ListingUniqueIff | utils/print-introspected-doxygen.cc:450-487 | With separable labels a listing has no repeated line if and only if no reachable type has two equal out-edges off the walk; `Uniquefy` works on a copy and removes nothing |
| SimpleWalks.DoubledEdgeRepeatsLine | utils/print-introspected-doxygen.cc:466-487 | Two equal out-edges at the end of a simple walk always give a repeated line |
| SimpleWalks.RepeatedLineHasDoubledEdge | utils/print-introspected-doxygen.cc:466-487 | From two equal lines, the walk and the two equal edges that caused them |
| SimpleWalks.JoinInjective | utils/print-introspected-doxygen.cc:402-412 | With separable labels the slash-joined path determines the labels |
| SimpleWalks.PathsAreSimpleWalks | utils/print-introspected-doxygen.cc:435-448 | A path is reported for a type if and only if it joins the labels of some simple walk to that type |
| SimpleWalks.PathsInOrder | utils/print-introspected-doxygen.cc:435-448 | The paths reported for a type are those of all its lines, in the order of the lines |
| SimpleWalks.LineIffChain | utils/print-introspected-doxygen.cc:489-572 | A line without walks: a type and a path are listed exactly when pairwise different types, each joined to the next by a labelled edge, lead to it and the path joins the labels |
| TypePaths.ListedIff | utils/print-introspected-doxygen.cc:489-572 | On the registry itself: a type and a path are listed exactly when a route of pairwise different types leads there, each step being a pointer attribute not to the object type, a container attribute, a descendant, or a recorded pair in either position, under its label |
| TypePaths.OneLabelIff | utils/print-introspected-doxygen.cc:498-571 | With names free of slashes, the lines with one label from a type are exactly these steps: "/name" for a pointer, "/name/[i]" for a container, "/$Type" for a descendant or a partner in a pair |
| TypePaths.OutEdgesHaveOrigins | utils/print-introspected-doxygen.cc:498-571 | The edges followed from a type correspond one to one, in order, to its pointing and containing attributes, then the registered types descending from it, then the pairs it takes part in |
| TypePaths.RepeatedPairListedTwice | utils/print-introspected-doxygen.cc:604-608 | A pair of types recorded twice makes the listing from its first type repeat a line |
| TypePaths.StaticInformation.DoGather | utils/print-introspected-doxygen.cc:489-572 | Terminates on every graph, cycles included; both stacks are restored exactly; the output grows by the trace of the type under the current stacks; the stack never holds a type twice |
| TypePaths.StaticInformation.Gather | utils/print-introspected-doxygen.cc:481-487 | Appends the listing of the root in the graph of the registry and the recorded pairs, and leaves both stacks empty |
| TypePaths.StaticInformation.GatherAttributes | utils/print-introspected-doxygen.cc:498-537 | The attribute loop follows pointer edges (except to the object type) and container edges in order |
| TypePaths.StaticInformation.GatherChildren | utils/print-introspected-doxygen.cc:538-550 | The loop over registered types follows one edge per descendant |
| TypePaths.StaticInformation.GatherAggregates | utils/print-introspected-doxygen.cc:551-571 | The aggregation loop follows one edge per pair the type takes part in, in either position |
| TypePaths.StaticInformation.RecordAggregationInfo | utils/print-introspected-doxygen.cc:370-390 | Both names known: the pair is added; otherwise the first unknown name is recorded and no pair |
| TypePaths.StaticInformation.HasAlreadyBeenProcessed | utils/print-introspected-doxygen.cc:421-433 | True exactly when the type is on the stack |
| TypePaths.StaticInformation.GetCurrentPath | utils/print-introspected-doxygen.cc:402-412 | The joined label stack |
| TypePaths.StaticInformation.Get | utils/print-introspected-doxygen.cc:435-448 | The paths of a type in output order |
| DependencyOrder.SortToDependencies | bindings/python/ns__init__.py:474-479 | The result is a permutation of the libraries with each after all its dependencies; it exists exactly when the recursion, within its stack depth, empties the pending list |
| DependencyOrder.LoadOrder.DependencyOrder | bindings/python/ns__init__.py:457-472 | The recursion ends with a result exactly when all libraries are grounded within the frames left; steps, pending and current lists are those of the layers |
| DependencyOrder.LoadOrder.TakeStep | bindings/python/ns__init__.py:462-469 | One step moves exactly the next layer from pending to current |
| DependencyOrder.ModulesThatCanBeLoaded | bindings/python/ns__init__.py:444-455 | The pending libraries all of whose dependencies are loaded, in pending order |
| DependencyOrder.StepIsLongestChain | bindings/python/ns__init__.py:457-472 | A library is in step k if and only if its longest dependency chain has k + 1 libraries and none leaves the map |
| DependencyOrder.LayersInOrder | bindings/python/ns__init__.py:474-479 | In the layers laid end to end every library comes after all its dependencies |
| DependencyOrder.LoadedAll | bindings/python/ns__init__.py:474-479 | When every library is grounded the layers are a permutation of the keys |
| DependencyOrder.FinishesIff | bindings/python/ns__init__.py:457-472 | All libraries are eventually loaded if and only if the map is acyclic and closed, and then within as many steps as libraries |
| DependencyOrder.StallsIff | bindings/python/ns__init__.py:457-472 | There is a first step without progress: before it every step loads something, from it on nothing changes, and nothing is pending there if and only if the map is acyclic and closed |
| DependencyOrder.StalledForever | bindings/python/ns__init__.py:457-472 | After one step without progress the pending list never changes again |
| DependencyOrder.SatisfiedIsGrounded | bindings/python/ns__init__.py:444-455 | After k steps a library can be loaded exactly when no chain from it is longer than k + 1 or leaves the map |
| ModuleNames.DevelopmentNameInverts | bindings/python/ns__init__.py:301-326 | For version 3-dev the file name gives the module back if and only if the module's first part has no "rc" and, in the release profile, its last part is not a build type; the filter fails with an index error exactly for a single part with "rc" in the release profile |
| ModuleNames.ReleaseNameInverts | bindings/python/ns__init__.py:301-326 | For a released version the same holds, and the first part must not be "dev" |
| ModuleNames.CandidateNameInverts | bindings/python/ns__init__.py:301-326 | For a release candidate only its own mark is taken for "rc": the module comes back if and only if the profile is shown or its last part is not a build type |
| ModuleNames.SearchIsLost | bindings/python/ns__init__.py:319-323 | A module named "search" makes the filter fail |
| ModuleNames.FilterModuleName | bindings/python/ns__init__.py:311-326 | The pops on the component list compute `ModuleOf`, the error cases included |
| ModuleNames.RootMeans | bindings/python/ns__init__.py:312 | Cutting the extension: the text before the last dot, if it is not made of dots only, and otherwise the whole name |
| ModuleNames.JoinSplit | bindings/python/ns__init__.py:313-326 | Joining what was split on dashes gives the text back |
| StyleEngine.CheckManuallyFile | utils/check-style-clang-format.py:619-680 | The verdict is that of a full scan even when the loop breaks early; in fix mode the file becomes the fixed text, otherwise it is unchanged |
| StyleEngine.FixIsFixpoint | utils/check-style-clang-format.py:646-680 | For every check whose repairs are good: fix, write, read and check reports compliance, and fixing again changes nothing |
| StyleEngine.SecondPass | utils/check-style-clang-format.py:646-673 | The invariant behind it: a line examined in the second pass was examined in the first, even if repairs create guard lines or delete lines |
| StyleEngine.DisabledUntouched | utils/check-style-clang-format.py:647-659 | A line behind a guard that switches formatting off, with no guard in between, is not changed |
| StyleEngine.GuardIff | utils/check-style-clang-format.py:648-654 | A line is a guard exactly when it is one of the guard texts between whitespace |
| StyleEngine.FixedLineIs | utils/check-style-clang-format.py:646-669 | Line by line: a guard, or a line whose closest guard before it switches on or which has none before it, is replaced by its repair if it does not comply; every other line stays |
| StyleEngine.CompliantIff | utils/check-style-clang-format.py:646-673 | A file complies exactly when all those lines do |
| StyleEngine.FixedFileLines | utils/check-style-clang-format.py:643-678 | The lines of the fixed file are those of the original, repaired as above, without the deleted ones |
| PyText.ReadLinesIff | utils/check-style-clang-format.py:643-644 | Reading cuts the text, with newlines translated, into lines in the only possible way |
| StyleRepairs.WhitespaceLineBecomes | utils/check-style-clang-format.py:926-956 | The repair is the longest prefix of the line that does not end in whitespace, with a newline; the line complies exactly when it has that form |
| StyleRepairs.WhitespaceFileBecomes | utils/check-style-clang-format.py:926-956 | After the fix, line k of the file is line k of the original without its trailing whitespace |
| StyleRepairs.TabsLineBecomes | utils/check-style-clang-format.py:959-991 | Exactly the lines with a tab are rejected; in the repair every character stands at its column, a tab filling up with spaces to the next multiple of four |
| StyleRepairs.EmacsLineBecomes | utils/check-style-clang-format.py:886-923 | Exactly the lines with one of the two settings are deleted |
| StyleRepairs.IncludeLineBecomes | utils/check-style-clang-format.py:734-769 | Exactly the lines of the form #include <ns3/….h>… are rejected; the repair has a quotation mark for every angle bracket |
| StyleRepairs.DoxygenLineBecomes | utils/check-style-clang-format.py:772-819 | Exactly the lines with whitespace, a comment marker, whitespace, a backslash and a word of three or more characters that is not an ignored one are rejected; the repair has '@' for the backslash of each occurrence of that tag |
| StyleRepairs.LicenseTextReplaced | utils/check-style-clang-format.py:822-883 | Exactly the lines that are a licence text within whitespace and comment marks are rejected; the first text is replaced by the SPDX text where it stands, lines with the others are deleted |
| StyleEngine.FixKeepsOther | utils/check-style-clang-format.py:646-680 | A check that ignores guards stays satisfied when the other check's repairs keep it line by line |
| StyleChecks.FixersAreFixpoints | utils/check-style-clang-format.py:734-991 | The tab, emacs, include-quote, licence and doxygen-tag fixers each yield a compliant file that fixing again leaves alone, for every file |
| StyleChecks.WhitespaceThenTabs | utils/check-style-clang-format.py:77-87 | Trimming whitespace and then expanding tabs, as ordered, gives a file that passes both checks |
| StyleChecks.TabsRepair | utils/check-style-clang-format.py:959-991 | Tab expansion gives a tab-free line, keeps the newline and keeps guards |
| StyleChecks.ExpansionMakesGuard | utils/check-style-clang-format.py:959-991 | Tab expansion can turn an ordinary line into a guard line |
| StyleChecks.TabsKeepWhitespace | utils/check-style-clang-format.py:926-991 | Expanding tabs keeps a line without trailing whitespace so |
| StyleChecks.WhitespaceRepair | utils/check-style-clang-format.py:926-956 | Trimming gives a compliant line |
| StyleChecks.EmacsRepair | utils/check-style-clang-format.py:886-923 | Emacs lines are deleted, and no guard line is one |
| StyleChecks.IncludeQuotesRepair | utils/check-style-clang-format.py:734-769 | Quoting an angled include gives a compliant line, and no guard line is an include |
| StyleChecks.LicenseLineBecomes | utils/check-style-clang-format.py:822-883 | The first licence line gets the SPDX line as its core, the other licence lines are deleted, and every other line is left alone |
| StyleChecks.LicensesRepair | utils/check-style-clang-format.py:822-883 | These repairs comply, keep newlines, and never touch a guard line |
| StyleChecks.DoxygenTagsRepair | utils/check-style-clang-format.py:772-819 | Replacing the tag everywhere in the line leaves no tag to repair |
| EventLog.ParseLogFile | train_uav_trajectory_final.py:182-219 | From the text of the log: a node is listed at t exactly when a header line with a time text for t and the node's IMSI is followed by a line that is no header and contains one of the two failure texts, with no header, failure or success text in between; reading fails exactly when a header's time text is not a number |
| EventLog.HeaderIff | train_uav_trajectory_final.py:185-187 | The header pattern on characters: a line is read as a header with given time and IMSI texts if and only if it has that form |
| EventLog.ReadLineMeans | train_uav_trajectory_final.py:190-217 | How a line is taken, from its characters, surrounding whitespace included: header with its numbers, failure, success or neither |
| EventAlignment.ParseLogUnderservedEvents | train_uav_trajectory_final.py:189-219 | A node is listed at time t exactly when some header with t and its IMSI is followed by a failure with no header, failure or success in between; parsing fails exactly on a header whose number does not parse |
| EventAlignment.OneFailurePerHeader | train_uav_trajectory_final.py:194-217 | A header has at most one failure line |
| EventAlignment.MergeEventMaps | train_uav_trajectory_final.py:255-263 | The merge is the pointwise union, whatever the iteration orders |
| EventAlignment.AlignEventsToPositionTimes | train_uav_trajectory_final.py:266-320 | Every kept event goes to the nearest of all position times, later on ties; dropped and kept node events add up to the raw ones; the reported gap is the maximum over all events; the five statistics are stated, and alignment never makes more times; fails exactly without position times |
| EventAlignment.NearestCandidate | train_uav_trajectory_final.py:290-302 | The better of the two neighbours is nearest among all times, the later on a tie |
| EventAlignment.SearchSorted | train_uav_trajectory_final.py:290 | Binary search finds the boundary between earlier times and the rest |
| EventAlignment.AlignedUnique | train_uav_trajectory_final.py:286-310 | The aligned map is determined by the events, so iteration order does not matter |
| EventAlignment.AlignDistributes | train_uav_trajectory_final.py:255-310 | Aligning a merge of event maps gives the merge of the aligned maps |
| EventAlignment.AlignedMeans | train_uav_trajectory_final.py:286-310 | In seconds: a node is listed at a position time exactly when it is listed at an event time of which that is the closest position time, later on ties, and no further away than allowed |
| EventAlignment.ObservedGapMeans | train_uav_trajectory_final.py:301-303 | The reported gap is the largest distance of an event from its closest position time |
| Heatmaps.BuildHeatmap | train_uav_trajectory_final.py:340-369 | Every cell holds the number of rows of a listed node at the time, up to the tolerance of the comparison, whose coordinates fall into it as one of n equal parts of each axis; the sum is the number of such rows in the closed rectangle |
| Heatmaps.ExactlyOneCell | train_uav_trajectory_final.py:340-365 | A row in the closed rectangle lies in exactly one cell, upper edges included |
| Heatmaps.BinIff | train_uav_trajectory_final.py:340-365 | A value v is in bin k of n exactly when k (hi - lo) <= (v - lo) n < (k + 1) (hi - lo), or v is the upper end and k the last bin |
| Heatmaps.FindBin | train_uav_trajectory_final.py:361-365 | Binary search over the edges finds exactly that bin, or none exactly outside the closed range |
| Heatmaps.CentroidInside | train_uav_trajectory_final.py:562-588 | For a non-negative heatmap the centroid exists exactly when the sum is positive, and lies in the rectangle |
| Heatmaps.CentroidOfOneCell | train_uav_trajectory_final.py:562-588 | A hotspot in a single cell (i, j) has its centroid at lo + (j + 1/2) (hi - lo) / n east and accordingly north |
| Heatmaps.CentroidOfSum | train_uav_trajectory_final.py:562-588 | The centroid of two heatmaps laid over each other is the mean of their centroids weighted with their sums |
| HeatmapSeries.BuildUnderservedHeatmaps | train_uav_trajectory_final.py:338-374 | One heatmap per distinct time of the trace in increasing order, each cell counting the rows of the nodes underserved then that fall into it, with the number of those nodes; refused exactly for an empty trace |
| HeatmapSeries.SumIsHitsAndStrays | train_uav_trajectory_final.py:347-369 | The heatmaps together count every row in the grid whose node is underserved at the row's own time, and on top of that each row once for every foreign time that is close to it and at which its node is underserved |
| HeatmapSeries.CountedOnceIff | train_uav_trajectory_final.py:347-369 | They never count less than the rows underserved at their own time, and count exactly these if and only if no row in the grid lies close to a foreign time at which its node is underserved |
| HeatmapSeries.EveryRowCountedOnce | train_uav_trajectory_final.py:347-369 | In particular when no two times of the trace are close, whatever the events |
| HeatmapSeries.CloseTimesMiscount | train_uav_trajectory_final.py:350 | A trace of two rows half a millisecond apart whose heatmaps count more than the rows |
| SequenceSplit.AcceptedIff | train_uav_trajectory_final.py:1096-1135 | With cells in every heatmap, the data pass all checks if and only if the ratios are valid and there are three more heatmaps than the lookback, whatever the ratios |
| SequenceSplit.TargetsPartition | train_uav_trajectory_final.py:1123-1125 | The three target ranges laid end to end are exactly the targets from the lookback to the end, in order |
| SequenceSplit.ItemIsWindow | train_uav_trajectory_final.py:395-400 | Every sample of every set consists of exactly the `lookback` normalised heatmaps before its target, and the target |
| SequenceSplit.TrainingIgnoresFuture | train_uav_trajectory_final.py:1112-1127 | Recordings that agree on the training period have the same scale and the same training samples, whatever comes later |
| SequenceSplit.EvaluationIgnoresFuture | train_uav_trajectory_final.py:1112-1135 | The input of a validation or test sample depends only on the heatmaps before its target |
| SequenceSplit.TrainingInUnitRange | train_uav_trajectory_final.py:1116-1117 | Normalised training cells lie between 0 and 1 |
| SequenceSplit.TrainingReachesOne | train_uav_trajectory_final.py:1116-1117 | If a training cell is positive, some training cell is normalised to 1 |
| SequenceSplit.SplitFollowsShares | train_uav_trajectory_final.py:1102-1110 | Each end of the split is the admissible position closest to its share of the heatmaps |
| SequenceSplit.SplitFollowsRatios | train_uav_trajectory_final.py:1096-1125 | From the ratios: training ends after the whole number of heatmaps its ratio gives, validation after the whole number both ratios give, moved only as far as needed to leave a target in each set |
| SchedulerBench.Statistics | utils/bench-scheduler.cc:333-354 | After all samples the six averages are the exact means and the six second moments the exact sums of squared deviations, never negative, for any initial average |
| SchedulerBench.AccurateStep | utils/bench-scheduler.cc:345-349 | One accumulation keeps the average and the second moment exact, from an arbitrary average before the first sample |
| SchedulerBench.AccurateIsMean | utils/bench-scheduler.cc:328-368 | Exact means: the average is the mean, the second moment the sum of squared deviations from it, not negative |
| SchedulerBench.Bench.Run | utils/bench-scheduler.cc:121-149 | From a clean simulator back to a clean one: with a positive population the run stops after total + 1 callbacks with the count at total, the queue holds the whole population after every callback but the last, events run in order of time and scheduling, and population + total delays are drawn; with an empty population nothing runs |
| SchedulerBench.RunSuite | utils/bench-scheduler.cc:273-296 | After the priming run every data run on the same object counts total, and starts at its own place in the random stream |
| SchedulerBench.Bench.Cb | utils/bench-scheduler.cc:151-164 | Stops without change when the total is reached; otherwise one more event is queued and counted |
| LargeTransfer.Flow.WriteUntilBufferFull | examples/tcp/tcp-large-transfer.cc:211-232 | Accepted bytes only grow and stay a prefix of the stream; a close happens exactly when all bytes are accepted; otherwise the call ended because the socket's last reply blocked it; nothing is sent after a close |
| LargeTransfer.Flow.WriteOnce | examples/tcp/tcp-large-transfer.cc:213-226 | One write stays inside the buffer, and an accepted part of it extends the stream prefix |
| LargeTransfer.Flow.StartFlow | examples/tcp/tcp-large-transfer.cc:198-209 | Over the first attempt and any number of callbacks the accepted bytes are a stream prefix, and the socket has been closed if and only if all bytes are accepted |
| LargeTransfer.EnoughOpeningsComplete | examples/tcp/tcp-large-transfer.cc:211-232 | Whatever the pattern of partial writes, refusals and full buffers, each reply that lets bytes through makes progress, so enough of them complete the transfer |
| LargeTransfer.EndlessIff | examples/tcp/tcp-large-transfer.cc:213-226 | A callback does not end if and only if the socket never blocks again and from some reply on has space but takes nothing while bytes are left |
| LargeTransfer.EveryStepIsGreedy | examples/tcp/tcp-large-transfer.cc:213-226 | Each reply that does not block lets through as much as it can: no more than the space reported or the bytes taken, not beyond the buffer or the transfer, and up to one of these |
| LargeTransfer.SeamlessIff | examples/tcp/tcp-large-transfer.cc:40-45 | A cyclic buffer reproduces the alphabet stream at every position if and only if its size is a multiple of 26 |
| TraceMirror.RowsAreTrace | examples/tcp/tcp-variants-comparison.cc:82-129 | A stream is empty before its tracer's first event; after it, it holds the old value at time zero and then one row per event of either tracer, at the event's time with the tracer's newest value |
| TraceMirror.StreamsAligned | examples/tcp/tcp-variants-comparison.cc:82-129 | From the later of the two first events on, both streams have a row for every event, at the same time and the same distance from the end |
| TraceMirror.OwnRowsRecovered | examples/tcp/tcp-variants-comparison.cc:82-129 | Dropping the mirrored rows gives back the tracer's own values |
| TraceMirror.Tracers.CwndTracer | examples/tcp/tcp-variants-comparison.cc:82-101 | Every interleaving of events keeps flags, values and streams of every node in step with its history; only the named node changes |
| TraceMirror.Tracers.SsThreshTracer | examples/tcp/tcp-variants-comparison.cc:110-129 | The same for the threshold tracer |
| TraceMirror.NodeIdRoundTrip | examples/tcp/tcp-variants-comparison.cc:67-74 | The node id is recovered from the path built for it, for every 32-bit id and every rest of the path |
| Fairness.PrintFairness | examples/tcp/dctcp-example.cc:174-240 | Every line of the report in 64-bit arithmetic: average bits and index quotient of the three groups, and the two sums over the bottlenecks, all the exact values modulo 2^64 |
| Fairness.Accumulate | examples/tcp/dctcp-example.cc:180-186 | The accumulators and the two products are the exact values modulo 2^64 |
| Fairness.AverageTruncates | examples/tcp/dctcp-example.cc:185 | The average is a multiple of eight and loses less than eight bits per flow to the integer division |
| Fairness.NoWrapIff | examples/tcp/dctcp-example.cc:180-186 | No intermediate value wraps if and only if n times the sum of squares is below 2^64 |
| Fairness.PrintsRatioIff | examples/tcp/dctcp-example.cc:186 | For all numerators and denominators, those of the index included, the printed quotient is the true one if and only if the denominator does not wrap to zero and both numbers lose the same share to the wrap-around |
| Fairness.RightWithoutWrap | examples/tcp/dctcp-example.cc:186 | Without wrap-around the printed quotient is the true index |
| Fairness.WrongWhenDenominatorWraps | examples/tcp/dctcp-example.cc:186 | When the denominator wraps and the numerator does not, it never is |
| Fairness.EqualCountsIff | examples/tcp/dctcp-example.cc:186 | For equal counts it is, however large they are, unless the denominator wraps to zero |
| Fairness.IndexInRange | examples/tcp/dctcp-example.cc:173-186 | Without wrap-around the index is between 1/n and 1, is 1 exactly for equal counts and 1/n exactly when at most one count is not zero |
| Fairness.SmallCountsDoNotWrap | examples/tcp/dctcp-example.cc:180-186 | n times the largest count below 2^32 is enough |
| Fairness.LargeCountLosesIndex | examples/tcp/dctcp-example.cc:180-186 | One flow with 2^32 bytes and others with none: the denominator wraps to zero |

## Left out

- HandoverRuns.CapacityNeverExceeded: assumes that reports count no cell below the UEs it serves, and that a UE entering attaches to a cell with room, reservations counted.
- LoadAwareHandover.OranLm.GetHandoverCommands: takes the UE list without repeated node ids, as the repository keys it by node id.
- LoadAwareHandover.Candidates: the order of cells with equal RSRP is fixed by insertion here, while the library sort leaves it open; the claims allow any order.
- SimpleWalks.ListingUniqueIff: asks that labels have no slash other than a trailing "/[i]", as attribute and type names have none, and that equal labels of one type lead to the same type, as names determine types.
- TypePaths.OneLabelIff: asks for names without slashes, as attribute and type names have none; `TypePaths.ListedIff` needs no such condition.
- TypePaths.StaticInformation.GatherChildren: the child relation is an arbitrary set of pairs, not derived from a parent table.
- EventLog.ParseLogFile: conversion of a time text to a number is a parameter; texts that convert to an infinite number are not modelled.
- EventAlignment.AlignEventsToPositionTimes: real numbers, no floating-point rounding and no not-a-number times; the same holds for the heatmaps and the statistics.
- SchedulerBench.Bench.Run: wall-clock times are not modelled; delays are whole nanoseconds and not negative.
- StyleChecks.DoxygenTagsRepair: the word characters of the tag pattern are the ASCII ones.
- StyleEngine.CheckManuallyFile: verbose messages are left out, and decoding is assumed to succeed.
- LargeTransfer.Flow.WriteUntilBufferFull: asks that the callback ends on this socket; see `LargeTransfer.EndlessIff` for exactly when it does not.
- LargeTransfer.Flow.StartFlow: asks that all callbacks of the flow end; this is the termination condition itself, no more.
- Fairness.PrintFairness: the final divisions in floating point are left out.
- HeatmapSeries.BuildUnderservedHeatmaps: times are kept exact where the program rounds them to single precision at the end.
- TraceMirror.Tracers.CwndTracer: asks for a registered node; for others the program would follow a null stream.
- Other logic modules, the conflict mitigation module, the RIC, the repositories and reporters of `contrib/oran`, and everything under `src`.
- Scenario programs under `examples` and `scratch`: straight-line configuration of library objects.
- Neural models, training, top-k metrics, plotting and export in the trajectory script.
- `check_formatting_file`, `check_encoding_file`, `check_include_prefixes_line`: external tools, byte decoding, file system.
- A joint fixpoint over all style fixers: tab expansion can create a line that an earlier pass would have repaired.
- Library search, lock file and binary inspection in the Python bindings: the dependency map is an input.
- The start/stop sender of the wifi example.
