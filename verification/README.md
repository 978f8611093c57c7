# djogi: migration ordering, ledger runs, snapshot drift and name codecs, in Dafny

This project models four parts of djogi and proves properties of the models. Every statement is for all inputs;
where the outside world decides something (how far the migration runner gets, whether a file still matches, which id
the database hands out), the outcome is a parameter and the statement holds for every value of it.

**Migration ordering and the ledger** (`djogi-cli/src/migrations.rs`).
`PendingListing` says which files of a directory tree are looked into; `PendingDiscovery` reads the listings, in any
order, into validated plans, refuses duplicate identities and sorts them (stage 1). `PendingOrder` reorders each (database, version, phase-zero) group with Kahn's algorithm
(stage 2), whose in-place run over an in-degree array is in `DependencyOrder`, next to the graph theory it is measured
against: topological orders, cycles, dictionary order on index lists. `Ledger` holds a ledger table as a class and the
moves the library runner can make on it. `ApplyStep` is the status machine of one migration, `ApplyRun` the loop over
the discovered plans, `ApplySafety` the proof that it applies nothing before its dependencies, and `ApplyCommand` the
command around it, with `Routing` for the databases that bucket names lead to and `SharedLedgers` for what happens when
several names lead to one. `RollbackRun` is target selection, the rollback loop and its command.

**The build script's JSON reader and drift classifier** (`djogi/build.rs`).
`JsonParser` has the byte parser twice: as a class with a cursor that only moves forward, loops included, and as
functions of the bytes still to be read, which the class is proved to compute. `JsonSyntax` describes every concrete
text (whitespace, escapes, numerals) with its printed form and its meaning; `JsonLanguage` proves that the reader
accepts exactly the printed forms and returns what they denote for it, and `JsonFaults` which broken texts it refuses
with which error. `JsonStandard` has the grammar of RFC 8259
sections 2 and 4 to 7, `JsonReadings` proves which accepted texts are in it, and `JsonMeaning` when the reader returns
the value that the standard gives a text. A text is the bytes of a UTF-8 string, as the reader's parameter is.
`SnapshotDrift` is the comparison that ignores two timestamp keys, the artifact selector and
the outcome classifier.

**Case conversion and the enum wire codec** (`djogi-macros/src/case.rs`, `djogi-macros/src/djogi_enum.rs`):
`CaseConversion` and `EnumCodec`.

**Durations** (`djogi-cli/src/live.rs`): `Durations`.

`Outcomes`, `Concatenation`, `Alphabets`, `Sorting`, `Lexicographic`, `PendingPlans` and `Json` hold the shared data and lemmas.

Points where the code decides and the model follows it, each with a lemma that gives an input or the exact condition:

- The JSON reader takes more than RFC 8259 allows: numbers may lack digits or start with zeros, strings may hold raw
  control characters, and a `\u` escape may start with a plus sign. `JsonReadings.AcceptedIsStandardIff` gives the exact
  boundary, `LenientNumbers` and `LenientStrings` inputs beyond it.
- The reader does not return what every text of the standard means: bytes of 0x80 and above become one character each,
  and an escaped surrogate adds nothing. `JsonMeaning.StandardTextReadIff` says exactly when it does, for texts with
  different keys; `AccentIsReadAsTwo` and `PairIsReadAsNothing` are inputs. Of equal keys the last stays, which the
  standard leaves open (`JsonMeaning.LastOfEqualKeysStays`).
- The comment on the duration parser says that trailing whitespace is rejected; the code trims, so it is accepted
  (`Durations.TrailingWhitespaceIsAccepted`).
- A composed plan names the global bucket as a dependency by the empty string (djogi/src/migrate/compose.rs:587-592),
  but the label check of `apply` refuses that string (`PendingOrder.GlobalDependencyIsRefused`). So no accepted list has
  a dependency on the global bucket, and the ordering and safety results say nothing about one.
- Two bucket names can lead to one database: `main` uses the application's URL as it is, the log databases may have URLs
  of their own, and every other name is put into the application's path (`Routing.RoutesMeetIff` says when two names
  meet). No run applies a migration before its dependencies even then (`ApplySafety.DiscoveredRunsAreDependencySafe`).
  But a plan can count as applied, and be skipped, through the row of another plan with its version and app, before its
  dependencies are settled: `SharedLedgers.AlwaysCountedInOrderIff` says exactly for which lists and connections this
  cannot happen, and `SharedListIsDiscovered` with `SharedDatabaseMiscounts` and `ApplyCommand.SharedContexts` give a
  discovered list and a configuration for which it does.
- A refusal of `apply` is not always without effect: the old row can be gone already
  (`ApplyStep.RefusalCanChangeLedger`; exactly when, in `ApplyStep.RefusalChangesLedgerIff`).
- The documentation says that five renaming rules give a field the same name as the variant of the same words. For every
  name without capitals, `CaseConversion.FieldAndVariantAgreeIff` says for each rule exactly when that is so, and
  `FieldAndVariantCanDisagree` that it is not for `engine_type` in lower case, and `a_b` and `line1_b` in snake case.
- Two plans of one group with the same app keep the later position in the lookup (`PendingOrder.AppIndexIsLast`). Discovery excludes this, so the
  statements about already ordered lists assume distinct identities, and `PendingDiscovery.DiscoveredList` proves that
  assumption.

Every error and exit of the model is pinned by a condition on the inputs alone: `PendingDiscovery.RefusedIffComplains`
and `ScanErrorIsFirst`, `PendingOrder.ListRefusedIffGroupRefused`, `ApplyStep.ReportedIffExplained`,
`ApplyCommand.OneExitStands`, `RollbackRun.SelectionAboveTarget` and `OneExitStands`, `JsonFaults.RefusedIff`,
`EnumCodec.CollectWires` and the contract of `Durations.ParseHumantimeDuration`. What the standards and the
documentation fix by enumeration is written out on the side of the laws, apart from the code: the bytes and escapes of
RFC 8259, the alphabets, the units of a duration, the two ignored keys, the statuses.

The runner is modelled by the statuses its SQL can leave behind: an apply gives up before its insert, leaves the row
pending, marks it failed, marks it applied and then fails, or succeeds; a fake apply inserts `faked` at once; a rollback
gives up before or after its update, or succeeds. An insert whose id or (version, app) is taken fails, as the table's
constraints demand. Each database has its own ledger table, and a map says which database each URL leads to; nothing is
assumed about different URLs leading to different databases.

## Model

| member | source | states |
|---|---|---|
| DependencyOrder.GreedyIsLeastTopologicalOrder | djogi-cli/src/migrations.rs:1710-1724 | when no node is left out, taking the least ready node each time gives a topological order, and of all topological orders the lexicographically least |
| DependencyOrder.BlockedIffOnOrAboveCycle | djogi-cli/src/migrations.rs:1726-1731 | a node is left out exactly when it lies on a cycle or reaches one through dependencies |
| DependencyOrder.IncompleteIffCyclic | djogi-cli/src/migrations.rs:1726-1738 | some node is left out exactly when the graph has a cycle of two or more nodes |
| DependencyOrder.FullLengthIffAllEmitted | djogi-cli/src/migrations.rs:1726 | the length test is the same as "every node was emitted" |
| DependencyOrder.IdentityIsKept | djogi-cli/src/migrations.rs:1710-1724 | when every dependency has a smaller index the run keeps 0, 1, 2, ... |
| DependencyOrder.Release | djogi-cli/src/migrations.rs:1718-1723 | counting down the dependents never goes below zero, repeated entries included, and leaves exactly the newly ready nodes in the ready set |
| DependencyOrder.Drain | djogi-cli/src/migrations.rs:1710-1729 | the in-place run emits the greedy order, and the positive counters left are exactly those of the nodes it left out |
| PendingOrder.EdgeMeaning | djogi-cli/src/migrations.rs:1689-1708 | a plan waits for exactly the other plans of its group whose app it names; self and outside labels are ignored |
| PendingOrder.AppIndexIsLast | djogi-cli/src/migrations.rs:1695-1699 | an app name resolves to the last plan of the group with that app |
| PendingOrder.GroupRefusedIffCyclic | djogi-cli/src/migrations.rs:1726-1738 | a group with acceptable labels is refused exactly when its dependency graph has a cycle |
| PendingOrder.GroupAcceptedIffOrderable | djogi-cli/src/migrations.rs:1684-1742 | a group with acceptable labels is accepted exactly when its graph has a topological order |
| PendingOrder.GroupOrderIsLeast | djogi-cli/src/migrations.rs:1701-1742 | an accepted group comes out in the least, by stage-1 position, of all topological orders |
| PendingOrder.CycleReportIsExact | djogi-cli/src/migrations.rs:1727-1737 | the error names the database and version and, sorted, the app of each plan on or above a cycle, once per such plan, and no other |
| PendingOrder.ListRefusedIffGroupRefused | djogi-cli/src/migrations.rs:1649-1747 | the list is refused exactly when some group has a bad label or a cycle, with the error of the first such group |
| PendingOrder.OrderingPermutes | djogi-cli/src/migrations.rs:1644-1749 | ordering loses and invents no plan |
| PendingOrder.OrderingIsIdempotent | djogi-cli/src/migrations.rs:1644-1749 | ordering an ordered list changes nothing |
| PendingOrder.OrderedListRespectsDependencies | djogi-cli/src/migrations.rs:1644-1749 | over contiguous groups, no plan of the whole result precedes a plan of its group that it depends on |
| PendingOrder.CheckLabels | djogi-cli/src/migrations.rs:1666-1675 | the check passes exactly when all labels are acceptable, and otherwise reports database, app and label of the first unacceptable one |
| PendingOrder.LabelErrorIsFirst | djogi-cli/src/migrations.rs:1666-1675 | a group with an unacceptable label is refused for it, cycle or not, and none before it in list order and label order is unacceptable |
| PendingOrder.GlobalDependencyIsRefused | djogi-cli/src/migrations.rs:1666-1675 | a group with a dependency on the empty label is refused for an invalid label |
| PendingOrder.CountDegrees | djogi-cli/src/migrations.rs:1684-1708 | counters and reverse lists agree with the dependency graph, counting repetitions |
| PendingOrder.OrderPendingGroupsByDependencies | djogi-cli/src/migrations.rs:1644-1749 | the code computes the group-wise order that the lemmas above are about |
| PendingPlans.LabelIs | djogi-cli/src/migrations.rs:1335-1352 | a label is acceptable when it has 1 to 63 characters, letters of the two alphabets, digits and underscores, no digit first |
| Lexicographic.DictionaryOrders | djogi-cli/src/migrations.rs:1616-1622 | strings and paths compare at the first place where they differ, a proper prefix first |
| PendingPlans.StageOneIs | djogi-cli/src/migrations.rs:1616-1622 | stage 1 goes by version, then phase zero before the rest, then path |
| PendingListing.FilesAreFound | djogi-cli/src/migrations.rs:1512-1605 | the files looked into are exactly the `.json` files right in the acceptable database directories and all files in their `.phase_zero`, each once |
| PendingDiscovery.AcceptedIffWellPlaced | djogi-cli/src/migrations.rs:1358-1482 | a file is accepted exactly when it parses and lies where its contents say it belongs |
| PendingDiscovery.RefusedIffComplains | djogi-cli/src/migrations.rs:1358-1482 | a file is refused with an error exactly when that is the first thing wrong with its name, contents, database, app and version |
| PendingDiscovery.PathDeterminesBucket | djogi-cli/src/migrations.rs:1354-1482 | two accepted files with one path claim one bucket |
| PendingDiscovery.ScanOkIffAdmissible | djogi-cli/src/migrations.rs:1489-1605 | the scan succeeds exactly when every candidate is valid and no two claim the same (database, app, version) |
| PendingDiscovery.ScanErrorIsFirst | djogi-cli/src/migrations.rs:1547-1604 | the error of a refused scan is about the first file that is refused, or repeats the identity of one before it |
| PendingDiscovery.ScanOkIffFilesAdmissible | djogi-cli/src/migrations.rs:1512-1605 | the scan of a directory tree succeeds exactly when each file in it, at whatever place, is accepted and no two have one identity |
| PendingDiscovery.DiscoveredFiles | djogi-cli/src/migrations.rs:1489-1632 | the discovered plans are the files of the directory tree, each once |
| PendingDiscovery.DiscoveryOrdersSorted | djogi-cli/src/migrations.rs:1607-1632 | discovery is the dependency order of the scanned plans listed by version, phase zero first, and path |
| PendingDiscovery.ReadOrderIsIrrelevant | djogi-cli/src/migrations.rs:1489-1632 | meeting the same files in another order gives the same list, or the same ordering error, and is refused alike |
| PendingListing.SameListingCandidates | djogi-cli/src/migrations.rs:1489-1606 | permuting the entries of any of the directories permutes the files found |
| PendingDiscovery.ListingOrderIsIrrelevant | djogi-cli/src/migrations.rs:1489-1632 | discovery of a directory tree does not depend on the order in which any of its directories is read |
| PendingDiscovery.SortedIsContiguous | djogi-cli/src/migrations.rs:1607-1659 | after stage 1 every (database, version, phase-zero) class is one block |
| PendingDiscovery.DiscoveredList | djogi-cli/src/migrations.rs:1489-1749 | the discovered list is a permutation of the scanned plans, has distinct identities, puts dependencies first across the whole list and is a fixed point of the ordering |
| PendingDiscovery.DiscoveredInVersionOrder | djogi-cli/src/migrations.rs:1607-1749 | versions ascend, phase zero first within a version, also after the reordering |
| PendingDiscovery.DiscoverPendingPlans | djogi-cli/src/migrations.rs:1489-1632 | the nested directory loops compute scan, sort and reordering, with the first error met; what they return is the files of the tree, each once, and they refuse the tree for its files exactly when these are not admissible |
| Ledger.DeleteKeepsKeysUnique | djogi-cli/src/migrations.rs:2018-2031 | deleting a migration's row keeps ids and (version, app) pairs unique |
| Ledger.DeleteKeepsTheRest | djogi-cli/src/migrations.rs:2018-2031 | after the deletion exactly the rows of other keys are left, in their order |
| Ledger.DeleteForgetsOneKey | djogi-cli/src/migrations.rs:2018-2031 | the deleted version and app is found no more, every other one as before |
| Ledger.LedgerTable.ApplyPlan | djogi/src/migrate/runner.rs:1373-1766 | an apply leaves the table alone or adds one row whose status says how far it got |
| Ledger.LedgerTable.RollbackPlan | djogi/src/migrate/runner.rs:2506-2794 | the row of the version and app is marked exactly when it is applied or faked and the call gets as far as its update, and success is reported exactly when it goes through |
| ApplyStep.ApplyOneTouchesOneRow | djogi-cli/src/migrations.rs:1855-1957 | other migrations' rows stay, a row is removed only if it was failed or rolled back, and a new row is this migration's |
| ApplyStep.ApplyOneKeepsKeysUnique | djogi-cli/src/migrations.rs:1837-1958 | at most one row per id and per (version, app), whatever the runner does |
| ApplyStep.AppliedIff | djogi-cli/src/migrations.rs:1847-1957 | exactly when one migration is applied, and the ledger it then leaves |
| ApplyStep.ReportedIffExplained | djogi-cli/src/migrations.rs:1847-1957 | each of the results is reported exactly when the file, the row and its status, the version, the cleanup, the replay plan, the runner and the id say so |
| ApplyStep.LedgerAfter | djogi-cli/src/migrations.rs:1847-1957 | the ledger after any call: the old row gone only for a call that came to load its plan, the new row with the status that the runner left |
| ApplyStep.RefusalChangesLedgerIff | djogi-cli/src/migrations.rs:1847-1921 | a call is refused and changes the ledger exactly when the file is unchanged, a failed or rolled-back row is there, may go and goes, and the replay plan does not load; the change is that row |
| ApplyStep.RefusalCanChangeLedger | djogi-cli/src/migrations.rs:1847-1921 | an input on which that happens |
| ApplyStep.ApplyOneSettles | djogi-cli/src/migrations.rs:1856-1957 | after success or skip the migration has an applied, faked or baseline row |
| ApplyStep.ApplyOnePending | djogi-cli/src/migrations.rs:1837-1958 | the code computes that step on the table in place |
| ApplyRun.RunKeepsKeysUnique | djogi-cli/src/migrations.rs:1246-1303 | the table constraints hold in every ledger at every point of every run |
| ApplyRun.RunningMeansSettled | djogi-cli/src/migrations.rs:1246-1303 | while the loop runs, every plan behind it is settled |
| ApplyRun.RunsThroughIff | djogi-cli/src/migrations.rs:1246-1303 | a run goes through exactly when each plan, met in the state that the plans before it left, can be applied then or is settled already |
| ApplySafety.AppliedAfterDependencies | djogi-cli/src/migrations.rs:1246-1303 | at every point of every run, over any connections, a row the run has put into a ledger records a plan whose dependencies in its group were settled when the loop came to it, and still are |
| ApplySafety.DiscoveredRunsAreDependencySafe | djogi-cli/src/migrations.rs:1246-1303 | the same, for every run over a discovered list |
| SharedLedgers.AlwaysCountedInOrderIff | djogi-cli/src/migrations.rs:1035-1303 | plans come to count as settled after their dependencies in all runs over a list if and only if the list, with the databases its names lead to, places every plan after each of its dependencies |
| SharedLedgers.ApartMeansPlaced | djogi-cli/src/migrations.rs:1644-1749 | an ordered list meets that condition when its bucket databases lead to different databases |
| SharedLedgers.SharedListIsDiscovered | djogi-cli/src/migrations.rs:1489-1749 | discovery hands out main/a, shop/b, shop/a for three files of which shop/a depends on b |
| SharedLedgers.SharedDatabaseMiscounts | djogi-cli/src/migrations.rs:1035-1053 | with both names on one database, that list does not meet the condition |
| ApplyRun.RemovedRowsBlockedReapply | djogi-cli/src/migrations.rs:1871-1908 | a row that a whole run removes was failed or rolled back and records a plan the run reached |
| ApplyRun.AddedRowsArePlanned | djogi-cli/src/migrations.rs:1246-1303 | a row that a whole run adds records a plan the run reached, with the id handed out for it and the status that its call left |
| ApplyRun.StopsAtFirstFailure | djogi-cli/src/migrations.rs:1280-1301 | a stopped run ran through everything before the plan it stopped at, took that one failing step for the reason that the state there gives, and no step after it |
| ApplyRun.SecondRunChangesNothing | djogi-cli/src/migrations.rs:1246-1303 | after a run that went through, any second run over the same plans changes nothing |
| ApplyRun.RunApply | djogi-cli/src/migrations.rs:1246-1303 | the loop over the tables computes that run and reports where it stopped |
| ApplyRun.NoMissingContext | djogi-cli/src/migrations.rs:1249-1254 | the internal "missing context" error cannot occur once every database of the list has a context |
| ApplyCommand.SameFilesAreNoChange | djogi-cli/src/migrations.rs:1798-1810 | reading the same directory tree in another order is not taken for a change, and does not keep the loop from running |
| ApplyCommand.OneExitStands | djogi-cli/src/migrations.rs:1163-1244 | the exits without a loop exclude each other, and one stands exactly when nothing is pending, discovery refuses, a database has no URL or does not answer, or the list changed |
| Routing.RouteIs | djogi-cli/src/migrations.rs:1035-1053 | a name leads to its own URL or to the application's with the name in its path, and nowhere exactly when there is neither |
| Routing.RoutesMeetIff | djogi-cli/src/migrations.rs:1035-1053 | for all names: two share a URL exactly when their own URLs are equal, or the own URL of one is the application's with the other's name in its path |
| ApplyCommand.LeadApartIff | djogi-cli/src/migrations.rs:1035-1053 | on servers that keep different URLs apart, the bucket databases of a list lead apart exactly when no two of its names meet |
| ApplyCommand.SharedContexts | djogi-cli/src/migrations.rs:1035-1053 | an application URL that ends in `shop` leads `main` and `shop` to one database |
| ApplyCommand.Connect | djogi-cli/src/migrations.rs:1780-1796 | one connection per bucket database of the list and no other, refused at an underivable URL before any connection is tried |
| ApplyCommand.ApplyCommand | djogi-cli/src/migrations.rs:1164-1303 | the loop runs exactly when something is pending, all of it reachable, and the same list is found under the lock; then over exactly that list, the files of the directory, applying nothing before its dependencies, keeping keys unique and never missing a context; in every other case the ledgers stay and the exit says why |
| RollbackRun.SelectionNeedsSettledTarget | djogi-cli/src/migrations.rs:3240-3259 | an unknown or unsettled `--to` version is refused as such, and only an unknown one as unknown |
| RollbackRun.SelectionAboveTarget | djogi-cli/src/migrations.rs:3240-3297 | with a settled `--to`: refused exactly at a pending, failed or baseline row above it, naming the newest; otherwise exactly the applied and faked rows above it, strictly descending |
| RollbackRun.PlainSelection | djogi-cli/src/migrations.rs:3261-3297 | without `--to` the newest row not rolled back decides alone |
| RollbackRun.PlainIsOneStep | djogi-cli/src/migrations.rs:3098-3163 | one plain rollback takes the first row that `--to` selects and leaves the others selected |
| RollbackRun.RepeatedPlainRollback | djogi-cli/src/migrations.rs:3225-3297 | as many plain rollbacks as `--to` selects rows pick the same rows in the same order, after which `--to` selects nothing |
| RollbackRun.ToRunMatchesPlainRuns | djogi-cli/src/migrations.rs:3098-3163 | a successful `--to` run and that many plain rollbacks reach the same ledger |
| RollbackRun.SelectionIsSelected | djogi-cli/src/migrations.rs:3225-3297 | every selection is strictly descending and holds only live rows of the app |
| RollbackRun.LoopRollsBackPrefix | djogi-cli/src/migrations.rs:3098-3163 | over any run a newest-first prefix of the selection is rolled back and nothing else changes |
| RollbackRun.NoNewerRowStaysLive | djogi-cli/src/migrations.rs:3098-3163 | no selected row that is still live is newer than one this run rolled back |
| RollbackRun.NoDriftMeansSameRows | djogi-cli/src/migrations.rs:3301-3328 | for selections of one app, comparing id, version and status is comparing the rows on the columns of the model |
| RollbackRun.RollBackTargets | djogi-cli/src/migrations.rs:3098-3163 | the loop on the table computes that run and stops at the first error |
| RollbackRun.OneExitStands | djogi-cli/src/migrations.rs:2978-3083 | the exits without a loop exclude each other, and one stands exactly when the loop is not reached: a refused, empty or changed selection, an unfit or lossy file, a dry run |
| RollbackRun.RunRollback | djogi-cli/src/migrations.rs:2915-3163 | the loop runs exactly for a real run with the same nonempty selection before and under the lock whose files pass; then exactly a prefix of it is rolled back, up to the first call that failed; in every other case, a dry run among them, the ledger stays and the exit says why |
| RollbackRun.ChooseTargets | djogi-cli/src/migrations.rs:2978-3083 | the steps before the loop reach it under that condition, with the rows selected under the lock, and otherwise end with the exit that stands |
| RollbackRun.GateRollbackTargets | djogi-cli/src/migrations.rs:3371-3477 | refused for an unfit file if there is one, otherwise for a lossy one if that was not allowed |
| RollbackRun.SelectRollbackTargets | djogi-cli/src/migrations.rs:3225-3297 | the selection loop computes the selection the lemmas are about |
| JsonParser.Cursor.SkipWs | djogi/build.rs:1012-1016 | the cursor stops at the first byte that is not whitespace |
| JsonParser.Cursor.ParseNumber | djogi/build.rs:1166-1191 | the cursor stops where the numeral ends and the text between is returned |
| JsonParser.Cursor.ParseString | djogi/build.rs:1093-1144 | the loop reads the string that the specification reads, or fails with the same error |
| JsonParser.Cursor.ParseObject | djogi/build.rs:1034-1065 | likewise for objects; the last of equal keys stays |
| JsonParser.Cursor.ParseArray | djogi/build.rs:1067-1091 | likewise for arrays |
| JsonParser.Cursor.ParseValue | djogi/build.rs:1018-1032 | every call terminates, the cursor never moves back or past the end, and value, error and remaining bytes are those of the specification |
| JsonParser.ParseJsonText | djogi/build.rs:1001-1010 | the whole text is read, with nothing but whitespace after the value |
| JsonSyntax.ReadValue | djogi/build.rs:1018-1191 | every printed form followed by bytes that end it is read back, leaving those bytes |
| JsonLanguage.PrintedTextsAreRead | djogi/build.rs:1001-1191 | any choice of whitespace, escapes and numerals is read as the value it denotes |
| JsonLanguage.AcceptedExactlyPrinted | djogi/build.rs:1001-1191 | a text is read as v exactly when it is whitespace around a printed form of v |
| JsonFaults.RefusedIff | djogi/build.rs:1001-1191 | a text is refused with an error exactly when it is whitespace and a value that breaks off where that error says, or has bytes behind its value |
| JsonLanguage.OneByteOfLookahead | djogi/build.rs:1012-1191 | the result depends on the consumed bytes and the first byte after them only |
| JsonLanguage.ReadsForward | djogi/build.rs:1018-1032 | a successful read leaves a proper suffix of its input |
| JsonLanguage.RoundTrip | djogi/build.rs:1001-1191 | every value with scannable numbers and basic-plane strings has a printed form, and all its printed forms are read as that value |
| JsonLanguage.ReadExactlyPrintable | djogi/build.rs:1001-1191 | some text is read as v if and only if v has scannable numbers and basic-plane strings |
| JsonStandard.StandardIff | djogi/build.rs:1093-1191 | the trees of the standard's grammar, in its own bytes, are the accepted ones without digitless or zero-led numerals, raw control characters and plus-signed escapes |
| JsonReadings.DocumentLeniency | djogi/build.rs:1001-1191 | all trees of one text contain such things, or none does |
| JsonReadings.AcceptedIsStandardIff | djogi/build.rs:1001-1191 | every text of the standard is accepted, and an accepted text is the standard's exactly when no tree of it contains such things |
| JsonReadings.LenientNumbers | djogi/build.rs:1166-1191 | three numbers that are accepted and not the standard's |
| JsonReadings.LenientStrings | djogi/build.rs:1093-1144 | an escape and a raw control character that are accepted and not the standard's |
| JsonMeaning.StringReadIff | djogi/build.rs:1093-1144 | the characters of a well-formed string, by the standard's table of escapes, are returned exactly when none of its bytes is 0x80 or more and none of its escapes a surrogate |
| JsonMeaning.StandardTextReadIff | djogi/build.rs:1001-1191 | a text of the standard with well-formed strings and different keys is read as what it means exactly when all its strings are of that kind |
| JsonMeaning.LastOfEqualKeysStays | djogi/build.rs:1034-1065 | of the members with one key, the last one's value stays |
| JsonMeaning.AccentIsReadAsTwo | djogi/build.rs:1137-1140 | the two bytes of one character are read as two characters |
| JsonMeaning.PairIsReadAsNothing | djogi/build.rs:1121-1132 | an escaped surrogate pair, one character, is read as none |
| SnapshotDrift.EquivIsStrippedEquality | djogi/build.rs:836-877 | the comparison is equality after removing `generated_at` and `composed_at` at every depth, also over missing values |
| SnapshotDrift.EquivIsEquivalence | djogi/build.rs:836-877 | it is reflexive, symmetric and transitive |
| SnapshotDrift.SelectorFindsMatch | djogi/build.rs:500-516 | the selector returns an artifact iff there is one, a matching one before one that does not match, and then the hidden one first |
| SnapshotDrift.OutcomesPartition | djogi/build.rs:786-826 | with the inventory present, exactly when the result is silence, Outcome 2 (with the version of the artifact chosen), Outcome 3 or Outcome 4, in terms of the inputs alone |
| SnapshotDrift.OutcomesWithoutInventory | djogi/build.rs:770-784 | without an inventory: silence when there is no artifact or the one that counts plans what the snapshot has, otherwise Outcome 2 with its version |
| SnapshotDrift.FallThroughIsUnreachable | djogi/build.rs:786-826 | one of the guards before the last branch always holds |
| SnapshotDrift.TimestampsNeverMatter | djogi/build.rs:429-449 | editing the two timestamp keys in any input never changes the diagnosis |
| CaseConversion.PascalToSnakeLoop | djogi-macros/src/case.rs:144-162 | the byte loop computes the recursive conversion |
| CaseConversion.LettersChangeCase | djogi-macros/src/case.rs:144-220 | letters change to their counterparts in the alphabet and nothing else changes |
| CaseConversion.SnakeAt | djogi-macros/src/case.rs:144-162 | where every character of the name stands in the output, and where the underscores: before each capital, but the first character, with a small letter beside it |
| CaseConversion.CapitaliseLoop | djogi-macros/src/case.rs:186-220 | the two `capitalise_next` loops compute the recursive conversion |
| CaseConversion.SplitName | djogi-macros/src/case.rs:186-220 | every name without capitals is the snake name of some words, empty ones standing for extra underscores |
| CaseConversion.PascalRoundTripIff | djogi-macros/src/case.rs:144-220 | snake to Pascal and back is the identity exactly when of all neighbouring words the second starts with a letter and a letter ends the first, of two characters or more, or is the second character of the second |
| CaseConversion.CamelRoundTripIff | djogi-macros/src/case.rs:144-200 | for camel case one character of the first word is enough, and the rest is as before |
| CaseConversion.LetterRoundTrips | djogi-macros/src/case.rs:144-220 | for words of letters: no two adjacent words of one letter, for camel case from the second word on |
| CaseConversion.SnakeShape | djogi-macros/src/case.rs:144-162 | no capitals come out, and only underscores are added to the lower-cased name |
| CaseConversion.FewUnderscores | djogi-macros/src/case.rs:144-162 | k underscores on n bytes: 3k is at most 2n |
| CaseConversion.FieldNames | djogi-macros/src/case.rs:105-124 | what each rule makes of a field name, in terms of its words |
| CaseConversion.VariantNames | djogi-macros/src/case.rs:68-88 | what each rule makes of the variant name of linked words |
| CaseConversion.FieldAndVariantAgreeIff | djogi-macros/src/case.rs:68-124 | for each rule and every name without capitals, exactly when the field name and the variant name of its words convert alike |
| CaseConversion.FieldAndVariantCanDisagree | djogi-macros/src/case.rs:95-124 | three inputs on which they do not, under rules documented to agree |
| CaseConversion.NeutralRulesAgreeIff | djogi-macros/src/case.rs:68-124 | applied to one and the same name, the two conversions agree on the five neutral rules exactly when it has no capitals |
| EnumCodec.CollectWires | djogi-macros/src/djogi_enum.rs:186-232 | accepted exactly when there are variants, all are unit variants and all wire strings differ; a wire string is the override, if there is one, or the converted name; otherwise the error is about the first offender |
| EnumCodec.DecodeIsSound | djogi-macros/src/djogi_enum.rs:237-250 | what decodes to a variant is its wire string, and only strings of no variant are rejected |
| EnumCodec.CodecRoundTripIffDistinct | djogi-macros/src/djogi_enum.rs:212-250 | every variant survives the round trip exactly when the wire strings are pairwise distinct |
| EnumCodec.FoldUndoneIff | djogi-macros/src/djogi_enum.rs:259-273 | `snake_to_pascal` undoes the name fold exactly on names without underscores that do not start with a lower-case letter |
| EnumCodec.EnumNameShape | djogi-macros/src/djogi_enum.rs:259-273 | the fold has no capitals, differs from the small-letter name in underscores only, starts with the first character, and has an underscore for each capital behind it |
| EnumCodec.HelperNamesAreDistinct | djogi-macros/src/djogi_enum.rs:259-279 | different such enum names get different helper names |
| Durations.ParseHumantimeDuration | djogi-cli/src/live.rs:458-499 | accepted with result n exactly when the text is digits and a documented unit up to surrounding whitespace, the product of the positional value and the unit is n, and n fits in 64 bits; each refusal exactly under its own condition |
| Durations.NumberValueIs | djogi-cli/src/live.rs:474-478 | the number read is the positional value of the digits |
| Durations.RefusedWithoutNumber | djogi-cli/src/live.rs:459-473 | refused as empty exactly when all is whitespace, for want of digits exactly when the first other character is no digit |
| Durations.JudgedByParts | djogi-cli/src/live.rs:474-499 | every other text is a number and what stands behind it, and these decide |
| Durations.TrailingWhitespaceIsAccepted | djogi-cli/src/live.rs:449-459 | `5m` followed by a space is read as 300 seconds |

## Left out

- Filesystem access, symbolic links and canonicalisation, file names that are not UTF-8, locks, environment, network,
  SQL execution, git and console output: directory contents are values, the ledger is the table's rows.
- The insides of the runner, of composing, of checksums, of the Phase 0 classifier and of the snapshot rebuild after a
  rollback: they appear as outcomes over which the statements quantify.
- A failed ledger read in `check_ledger_state`, which the code maps to "not present": reads succeed here. The table's
  unique constraint would turn the insert that follows into a runner error.
- Dependency order under rollback: it works on one app at a time and promises nothing across apps.
- Exit codes, message texts and byte positions in messages: errors are constructors with the data they name.
- Whether a URL answers is one condition in `ApplyCommand`, without the distinction between an unsupported server and a
  failed connection.
- RollbackRun.NoDriftMeansSameRows: does not cover the ledger columns that are not part of the model (description,
  checksums, step counts, notes), which the drift check does not compare either; the rows acted on are the locked ones.
- The sort calls of the standard library are modelled by one stable sorting function; its result on the inputs used
  here is determined by being sorted and a permutation (`Sorting.SortedIsUnique`).
- ParseValue: the depth of the native call stack on deeply nested texts is not modelled.
- RoundTrip: values with surrogates or characters beyond the basic plane are not included; the reader drops surrogate
  escapes and reads other such characters byte by byte.
- Non-ASCII identifiers in case conversion, which the source places out of its scope.
- The tokens the derive macros emit around the codec arms, attribute parsing, and the remaining commands of the CLI
  (verify, repair, attune, live), most of which branch on one fact at a time.
