# simplesat in Dafny

A model of the core of simplesat, a SAT-based package dependency solver.
A request (install, remove or update jobs) is turned into clauses over package
ids. A CDCL engine with two watched literals per clause decides them, under a
decision policy that prefers installed and newer packages. The model is then
pruned to the packages connected to the request and turned into a transaction:
installs and updates in dependency order, removals last. Below the solver sit
the constraint layer (requirement and constraint parsers, pretty package
strings, the allow-newer, allow-older and allow-any constraint rewrites) and the
data structures the engine leans on (the assignment table with its changelog,
the lazy-deletion priority queue, the pool of package ids and the sorted
repository). A small watched-literal enumerator, which lists every model of a
clause set, is modelled beside the engine.

There is one module per source file:

| file | module | models |
|---|---|---|
| wrappers.dfy | Wrappers | `Option`, and `Result` with the exception an operation raises |
| py_text.dfy, seq_util.dfy | PyText, SeqUtil, SetFacts, IntSets | the Python string, list and set builtins the code calls |
| kinds.dfy | Kinds | versions as (upstream, build) pairs under a total order, and the constraint kinds |
| package.dfy | Packages | package metadata records |
| sat_utils.dfy | SatUtils | simplesat/sat/utils.py |
| utils.dfy | Utils | simplesat/utils.py |
| assignment_set.dfy | AssignmentSetModel | simplesat/sat/assignment_set.py |
| clause.dfy | Clauses | `Clause` of simplesat/minisat.py |
| watch_state.dfy | WatchState | the invariants of the engine's watch lists, on values |
| minisat.dfy | MiniSat | simplesat/sat/minisat.py |
| priority_queue.dfy, group_prioritizer.dfy | PriorityQueueModel, GroupPrioritizerModel | simplesat/priority_queue.py |
| pool.dfy | Pools | simplesat/pool.py |
| repository.dfy | Repositories | simplesat/repository.py |
| request.dfy | Requests | simplesat/request.py |
| requirement.dfy | Requirements | simplesat/constraints/requirement.py |
| parser.dfy | ConstraintParser | simplesat/constraints/parser.py |
| package_parser.dfy | PackageParser | simplesat/constraints/package_parser.py |
| constraint_modifiers.dfy | ConstraintModifiersModel | simplesat/constraints/constraint_modifiers.py |
| rules_generator.dfy | RulesGenerators | simplesat/rules_generator.py |
| transaction.dfy | Transactions | simplesat/transaction.py |
| graph.dfy | Graphs | simplesat/utils/graph.py |
| dependency_solver.dfy | DependencySolverModel | simplesat/dependency_solver.py |
| compute_dependencies.dfy | ComputeDependencies | simplesat/compute_dependencies.py |
| undetermined_clause_policy.dfy | UndeterminedClausePolicyModel | simplesat/sat/policy/undetermined_clause_policy.py |
| simple_solver.dfy | SimpleSolver | simple_solver.py |

Objects the source updates in place are classes: the solver, the assignment
table, the priority queue, the pool, the repository, the request, the rules
generator, the transaction, the decision policy, the watchlist and the
enumerator. Their methods state the new state and keep an invariant. Pure code
is functions and lemmas. A Python exception is an `Err` value naming it. Where
the code and its own tests or design disagree, the methods follow the code as
written, and the intended behaviour is a separate member (see "Findings").

## Model

| member | source | states |
|---|---|---|
| PyText.Split | simplesat/utils.py:37 | `s.split()`: every word is non-empty and whitespace-free |
| PyText.SplitJoin | simplesat/utils.py:37-47 | splitting a single-space join of whitespace-free words gives the words back |
| PyText.SplitOn | simplesat/constraints/parser.py:132 | `s.split(",")`: at least one part, none containing the separator |
| PyText.JoinSplitOn | simplesat/constraints/parser.py:132 | joining the parts of `s.split(sep)` with `sep` gives `s` back |
| PyText.Strip | simplesat/constraints/parser.py:134 | `s.strip()`: no blank at either end, never longer, empty exactly when `s` is all blanks |
| PyText.SortStrings | simplesat/transaction.py:148 | `sorted` on strings: a sorted permutation of the input |
| PyText.StringLessTotal | simplesat/transaction.py:148 | the string order `sorted` uses is total |
| PyText.StringLessTransitive | simplesat/transaction.py:148 | the string order `sorted` uses is transitive |
| PyText.StringLessIrreflexive | simplesat/transaction.py:148 | no string is below itself |
| SeqUtil.Dedup | simplesat/constraints/constraint_modifiers.py:120 | `OrderedDict.fromkeys(s).keys()`: no duplicates, the same elements as `s` |
| SeqUtil.DedupOrder | simplesat/constraints/constraint_modifiers.py:120 | de-duplication keeps elements in the order of their first occurrence |
| SeqUtil.DedupOfNoDup | simplesat/minisat.py:18 | a sequence without duplicates is its own de-duplication |
| SeqUtil.DedupSingle | simplesat/constraints/constraint_modifiers.py:120 | one element is left exactly when all elements are equal |
| SeqUtil.SortInts | simplesat/transaction.py:66 | `sorted` on integers: a sorted permutation |
| SeqUtil.SortedUnique | simplesat/transaction.py:66 | two sorted sequences with the same multiset are equal, so `sorted` is determined by its input's elements |
| SeqUtil.SortIntsPermutation | simplesat/transaction.py:66 | sorting depends only on the multiset of elements |
| IntSets.SortedSet | simplesat/rules_generator.py:440 | `sorted(ids)` on a set: strictly increasing with exactly the set's elements |
| SatUtils.Value | simplesat/sat/utils.py:1-8 | true exactly when the variable's status equals the literal's polarity, false exactly when it is the opposite, otherwise None |
| SatUtils.ValueUnassigned | simplesat/sat/utils.py:4-6 | the value is None exactly when the variable has no status |
| SatUtils.ValueByPolarity | simplesat/sat/utils.py:7-8 | a positive literal reads its variable's status, a negative one the negation |
| SatUtils.ValueNegation | simplesat/sat/utils.py:1-8 | a non-zero literal and its negation have opposite values once assigned |
| SatUtils.ValueOfZeroNotNegated | simplesat/sat/utils.py:7 | literal 0 counts as positive, so it and its negation read the same value |
| SatUtils.ValueLocal | simplesat/sat/utils.py:4 | the value depends only on the status of the literal's own variable |
| Utils.EqualLiteralsHashAlike | simplesat/utils.py:20-25 | literals equal under `__eq__` have the same printed form, hence the same hash |
| Utils.LiteralStrPrefix | simplesat/utils.py:13-14 | the printed literal starts with '-' exactly when it is conjugated, followed by the name |
| Utils.ParseWord | simplesat/utils.py:38-43 | a word gives a literal conjugated exactly when the word starts with '-', which prints as the word |
| Utils.ParseClause | simplesat/utils.py:34-44 | one literal per word of `s.split()`, each printing as its word |
| Utils.FromString | simplesat/utils.py:34-44 | the loop builds exactly `ParseClause(s)` |
| Utils.ParseWords | simplesat/utils.py:37-43 | one literal per word, in order, each `ParseWord` of its word |
| Utils.ClauseStrParseClause | simplesat/utils.py:34-47 | printing a parsed clause gives the text back when the text is its words joined by single spaces |
| Utils.ParseClauseStr | simplesat/utils.py:34-47 | parsing a printed clause gives the clause back for non-empty, blank-free names without a leading '-' |
| AssignmentSetModel.SetItemCount | simplesat/sat/assignment_set.py:35-47 | `__setitem__` keeps the counter equal to the number of keys holding True or False |
| AssignmentSetModel.SetItemValid | simplesat/sat/assignment_set.py:35-47 | `__setitem__` keeps the counter right and every log entry a real change ending in the current slot |
| AssignmentSetModel.SetItemTracks | simplesat/sat/assignment_set.py:77-88 | after a write the changelog still holds exactly the keys that differ from the last taken table, with their original slots |
| AssignmentSetModel.SetItemThenGet | simplesat/sat/assignment_set.py:47-57 | reading a key right after writing it gives the written value; other keys are unchanged |
| AssignmentSetModel.DelItemValid | simplesat/sat/assignment_set.py:49-51 | the counted deletion keeps the invariant and the log's meaning, and raises KeyError exactly for an absent key |
| AssignmentSetModel.DelMissingUnchanged | simplesat/sat/assignment_set.py:49-51 | deleting an absent key raises KeyError and changes nothing, as written and corrected |
| AssignmentSetModel.DelItemAsWrittenMiscounts | simplesat/sat/assignment_set.py:49-51 | as written: assign key 0, delete it, and `num_assigned` stays 1 while no key is assigned |
| AssignmentSetModel.DelItemAsWrittenDrift | simplesat/sat/assignment_set.py:49-51 | the deletion as written is the counted one with the counter one higher when the deleted key was assigned |
| AssignmentSetModel.SetItemUncounted | simplesat/sat/assignment_set.py:38-44 | a write moves the counter by the same amount whatever it is already off by |
| AssignmentSetModel.GetChangelogResets | simplesat/sat/assignment_set.py:90-93 | `get_changelog` returns the log, leaves an empty one, and the empty log describes the table as it now is |
| AssignmentSetModel.NumAssignedAtMostLen | simplesat/sat/assignment_set.py:102-104 | on a valid table `num_assigned` never exceeds `len` |
| AssignmentSetModel.AssignmentSet.SetItem | simplesat/sat/assignment_set.py:35-47 | the fields move exactly as `Assigned` says, keeping the invariant |
| AssignmentSetModel.AssignmentSet.UpdateLog | simplesat/sat/assignment_set.py:77-88 | the changelog becomes `UpdateChangelog` of the old table |
| AssignmentSetModel.AssignmentSet.DelItem | simplesat/sat/assignment_set.py:49-51 | as written: the log and data follow `DeletedAsWritten` (the counter is not decremented) and KeyError is raised exactly for an absent key |
| AssignmentSetModel.AssignmentSet.Get | simplesat/sat/assignment_set.py:56-57 | `get`: a value exactly when the key holds True or False |
| AssignmentSetModel.AssignmentSet.Len | simplesat/sat/assignment_set.py:59-60 | `len`: the number of keys, at least the number assigned |
| AssignmentSetModel.AssignmentSet.Contains | simplesat/sat/assignment_set.py:62-63 | `in`: true exactly when the key is present, even mapped to None |
| AssignmentSetModel.AssignmentSet.NumAssigned | simplesat/sat/assignment_set.py:102-104 | the counter: keys holding True or False plus the assigned keys deleted so far |
| AssignmentSetModel.AssignmentSet.TakeChangelog | simplesat/sat/assignment_set.py:90-93 | returns the old log, empties it, and the table is unchanged |
| AssignmentSetModel.AssignmentSet.Copy | simplesat/sat/assignment_set.py:95-100 | a fresh table with the same data, counter and log |
| PriorityQueueModel.PushQ | simplesat/priority_queue.py:97-109 | after `push` the given task is live at that priority; the same task at the same priority leaves the queue as it was; otherwise it takes the next id |
| PriorityQueueModel.PushQValid | simplesat/priority_queue.py:97-109 | `push` keeps the ids distinct and below the counter |
| PriorityQueueModel.MinTaskExists | simplesat/priority_queue.py:89-95 | a non-empty queue has a task with least (priority, id) |
| PriorityQueueModel.MinTaskUnique | simplesat/priority_queue.py:89-95 | that least task is unique |
| PriorityQueueModel.PopQ | simplesat/priority_queue.py:89-95 | `pop`: KeyError exactly when no task is live, else the least task, removed |
| PriorityQueueModel.PopN | simplesat/priority_queue.py:67-75 | `pop_many(n)`: succeeds exactly when at least n tasks are live and returns n of them; otherwise KeyError with the queue emptied |
| PriorityQueueModel.PopNLayout | simplesat/priority_queue.py:67-75 | a queue whose tasks share a priority with increasing ids pops them back in that order |
| PriorityQueueModel.EqualPriorityFifo | simplesat/priority_queue.py:45-75 | distinct tasks pushed at one priority come out of `pop_many()` in push order |
| PriorityQueueModel.PushAllLayout | simplesat/priority_queue.py:45-47 | pushing fresh tasks at one priority lays them out with consecutive ids |
| PriorityQueueModel.MinIndex | simplesat/priority_queue.py:91 | `heappop` takes an entry no other entry's (priority, id) comes before |
| PriorityQueueModel.LiveMinTask | simplesat/priority_queue.py:89-94 | a live least entry holds the least live task |
| PriorityQueueModel.DropLive | simplesat/priority_queue.py:91-93 | removing a live entry removes its task from the finder and keeps the heap invariant |
| PriorityQueueModel.DropDead | simplesat/priority_queue.py:90-92 | discarding a removed entry changes nothing a caller sees |
| PriorityQueueModel.MarkRemoved | simplesat/priority_queue.py:84-87 | `remove` takes the given task out of the finder and marks its entry dead |
| PriorityQueueModel.PriorityQueue.constructor | simplesat/priority_queue.py:24-30 | an empty queue |
| PriorityQueueModel.PriorityQueue.Len | simplesat/priority_queue.py:32-33 | the number of live tasks |
| PriorityQueueModel.PriorityQueue.NonEmpty | simplesat/priority_queue.py:35-36 | true exactly when some task is live |
| PriorityQueueModel.PriorityQueue.Contains | simplesat/priority_queue.py:38-39 | true exactly when the given task is live |
| PriorityQueueModel.PriorityQueue.Clear | simplesat/priority_queue.py:41-43 | no entry and no task left; the id counter keeps counting |
| PriorityQueueModel.PriorityQueue.Remove | simplesat/priority_queue.py:84-87 | KeyError exactly when the given task is not live; otherwise the given task leaves the finder and its entry is marked |
| PriorityQueueModel.PriorityQueue.Discard | simplesat/priority_queue.py:77-82 | the given task is no longer live, and no error either way |
| PriorityQueueModel.PriorityQueue.PushEntry | simplesat/priority_queue.py:97-109 | the same task at the same priority changes nothing; otherwise its old entry is marked and a fresh one added |
| PriorityQueueModel.PriorityQueue.Push | simplesat/priority_queue.py:45-47 | the queue's contents move exactly as `PushQ` says |
| PriorityQueueModel.PriorityQueue.PopEntry | simplesat/priority_queue.py:89-95 | `_pop`: KeyError exactly when no task is live; otherwise the entry of the least task, which leaves the finder |
| PriorityQueueModel.PriorityQueue.Pop | simplesat/priority_queue.py:62-65 | the result and new contents are those of `PopQ` |
| PriorityQueueModel.PriorityQueue.Peek | simplesat/priority_queue.py:49-60 | what `pop` would return, contents unchanged; KeyError exactly when no task is live |
| PriorityQueueModel.PriorityQueue.PopMany | simplesat/priority_queue.py:67-75 | the result and new contents are those of `PopN`, with `n` defaulting to the number of live tasks |
| GroupPrioritizerModel.RankOrder | simplesat/priority_queue.py:166-173 | ranks in a group lie below its size, follow the key order and are distinct |
| GroupPrioritizerModel.OwnedGroupsDisjoint | simplesat/priority_queue.py:150-158 | no item is in two groups |
| GroupPrioritizerModel.Priorities | simplesat/priority_queue.py:166-173 | every known item gets (its group, its rank in the group) |
| GroupPrioritizerModel.GroupPriorities | simplesat/priority_queue.py:169-172 | each item of one group gets that group and a rank below the group's size |
| GroupPrioritizerModel.MoveItems | simplesat/priority_queue.py:150-158 | the items leave every other group and join `group`, created if new |
| GroupPrioritizerModel.MoveItemsOwns | simplesat/priority_queue.py:150-158 | after `update` each moved item belongs to `group` only and every other item keeps its group |
| GroupPrioritizerModel.UpdateKeepsValid | simplesat/priority_queue.py:150-158 | `update` keeps the prioritizer's invariant and marks it dirty |
| GroupPrioritizerModel.MoveGroups | simplesat/priority_queue.py:153-157 | the loop of `update` computes `MoveItems` |
| GroupPrioritizerModel.GroupPrioritizer.constructor | simplesat/priority_queue.py:117-128 | no groups, no known items, dirty |
| GroupPrioritizerModel.GroupPrioritizer.Contains | simplesat/priority_queue.py:130-131 | true only for known items; exactly the known items once priorities are fresh |
| GroupPrioritizerModel.GroupPrioritizer.Prioritize | simplesat/priority_queue.py:166-176 | the priorities become `Priorities` of the groups and are no longer dirty |
| GroupPrioritizerModel.GroupPrioritizer.GetItem | simplesat/priority_queue.py:133-137 | recomputes if dirty, then the item's fresh priority or KeyError for an unknown item |
| GroupPrioritizerModel.GroupPrioritizer.Get | simplesat/priority_queue.py:139-142 | None unless the item was in the priorities last computed; then its fresh priority |
| GroupPrioritizerModel.GroupPrioritizer.Items | simplesat/priority_queue.py:144-148 | every known item with its fresh priority |
| GroupPrioritizerModel.GroupPrioritizer.Update | simplesat/priority_queue.py:150-158 | the known set grows by the items and the groups become `MoveItems` of the old ones |
| GroupPrioritizerModel.GroupPrioritizer.Group | simplesat/priority_queue.py:160-164 | the group's members, or KeyError exactly when the group was never updated |
| Kinds.VersionOrderTotal | simplesat/constraints/package_parser.py:68 | the version order the constraints compare with is a strict total order |
| Clauses.Swap | simplesat/minisat.py:56 | the tuple swap of two entries: those two exchanged, the rest unchanged |
| Clauses.SwapPermutes | simplesat/minisat.py:44 | a swap keeps the same literals, counted, and keeps them duplicate-free |
| Clauses.WatchSecond | simplesat/minisat.py:43-44 | after the first step of `rewatch` the other watch is first and `-lit` second |
| Clauses.FirstNotFalse | simplesat/minisat.py:53-54 | the first literal from position i on that is not false, with every one before it false; None when all are false |
| Clauses.RewatchedPermutes | simplesat/minisat.py:40-61 | `rewatch` permutes the literals and keeps them duplicate-free |
| Clauses.RewatchedSatisfied | simplesat/minisat.py:43-49 | the other watch comes first, and when it is true no unit is returned and `-lit` stays watched |
| Clauses.RewatchedUnit | simplesat/minisat.py:53-61 | a unit is returned exactly when the other watch is not true and every unwatched literal is false; the unit is the other watch |
| Clauses.RewatchedReplaced | simplesat/minisat.py:53-57 | when no unit comes back, the first non-false unwatched literal took `-lit`'s place |
| Clauses.RewatchedSecond | simplesat/minisat.py:53-57 | the second watch is `-lit` or one of the formerly unwatched literals |
| Clauses.RewatchedRestoresWatch | simplesat/minisat.py:20-57 | without a unit, the first watch is true or the second is not false |
| Clauses.NegatedExcept | simplesat/minisat.py:74 | the negations of the clause's literals other than p |
| Clauses.NegatedExceptLength | simplesat/minisat.py:63-74 | one literal shorter than the clause exactly when p occurs in it |
| Clauses.ReasonOfFalsified | simplesat/minisat.py:63-74 | for a falsified clause every literal of the reason is true |
| Clauses.Clause.constructor | simplesat/minisat.py:16-18 | the literals are de-duplicated in first-occurrence order |
| Clauses.Clause.Rewatch | simplesat/minisat.py:20-61 | the new literals and the result are exactly `Rewatched` of the old literals |
| Clauses.Clause.CalculateReason | simplesat/minisat.py:63-74 | x is in the reason exactly when -x is a literal other than p |
| Clauses.Clause.Len | simplesat/minisat.py:76-77 | the number of literals |
| WatchState.StartPending | simplesat/sat/minisat.py:103-105 | taking a literal's watch list out leaves the watch invariant holding with those clauses pending |
| WatchState.WatchStep | simplesat/sat/minisat.py:108-112 | after `rewatch` a clause re-filed under `-lits[1]` restores the watch invariant for it |
| WatchState.ConflictRestore | simplesat/sat/minisat.py:121-124 | putting the remaining pending clauses back restores the watch invariant |
| WatchState.AddWatched | simplesat/sat/minisat.py:86-90 | a stored clause watched under `-p` and `-q` keeps the watch and database invariants |
| WatchState.EnqueueTrail | simplesat/sat/minisat.py:138-142 | assigning a new true literal extends the table and keeps every trail literal true, with no variable twice |
| WatchState.UndoTrail | simplesat/sat/minisat.py:259-261 | unassigning the last trail literal keeps the rest of the trail true and distinct |
| WatchState.RewatchedConflict | simplesat/sat/minisat.py:115-124 | a unit that is already false means every literal of the clause is false |
| MiniSat.SolutionLiteralMeaning | simplesat/sat/minisat.py:178-179 | a literal is read off the solution exactly when it is true there, or negative over a variable mapped to None |
| MiniSat.StoreInv | simplesat/sat/minisat.py:86-90 | storing a clause keeps the solver invariant |
| MiniSat.VisitInv | simplesat/sat/minisat.py:108-112 | one `rewatch` and re-filing keeps the solver invariant |
| MiniSat.ConflictInv | simplesat/sat/minisat.py:119-124 | the conflict exit keeps the solver invariant |
| MiniSat.StoreStep | simplesat/sat/minisat.py:138-143 | `enqueue` of an unassigned literal keeps the trail invariant, makes the literal true and extends the table |
| MiniSat.UndoStep | simplesat/sat/minisat.py:259-263 | `undo_one` keeps the trail invariant and leaves the variable unassigned |
| MiniSat.StoreCount | simplesat/sat/minisat.py:138-139 | assigning one more variable lowers the number unassigned by one |
| MiniSat.MaxLevel | simplesat/sat/minisat.py:216 | the running `max(btlevel, level)`: at least 0 and every read level, and one of them unless 0 |
| MiniSat.MaxLevelIndex | simplesat/sat/minisat.py:245-249 | `max(enumerate(levels), key=level)`: an index of highest level, the first such one |
| MiniSat.ArrangedPermutes | simplesat/sat/minisat.py:241-251 | `record`'s reordering permutes the literals |
| MiniSat.ArrangedWatches | simplesat/sat/minisat.py:241-251 | after it the former last literal is first and the second has the highest level |
| MiniSat.TraceReason | simplesat/sat/minisat.py:205-216 | every reason variable is seen; a new one on the current level is counted, any other is learned negated with its level read into the backtrack level |
| MiniSat.TraceLiteral | simplesat/sat/minisat.py:206-216 | one reason literal: marked seen, then counted or learned as above |
| MiniSat.Arrange | simplesat/sat/minisat.py:241-251 | the clause's literals become `Arranged` of the old ones |
| MiniSat.MiniSATSolver.constructor | simplesat/sat/minisat.py:39-67 | every table empty and the status None |
| MiniSat.MiniSATSolver.DecisionLevel | simplesat/sat/minisat.py:295-299 | the length of `trail_lim` |
| MiniSat.MiniSATSolver.NumberAssigned | simplesat/sat/minisat.py:283-287 | the number of variables holding True or False |
| MiniSat.MiniSATSolver.NumberVariables | simplesat/sat/minisat.py:289-293 | the number of keys of the table, never below the number assigned |
| MiniSat.MiniSATSolver.Enqueue | simplesat/sat/minisat.py:129-146 | an assigned literal returns its value and changes nothing; an unassigned one becomes true, joins the queue and trail, and returns True |
| MiniSat.MiniSATSolver.UndoOne | simplesat/sat/minisat.py:256-263 | pops the trail, unassigns its variable, clears its reason and sets its level to -1 |
| MiniSat.MiniSATSolver.Cancel | simplesat/sat/minisat.py:271-277 | pops one level and undoes the trail back to where the level began |
| MiniSat.MiniSATSolver.UndoMany | simplesat/sat/minisat.py:276-277 | undoes the last n trail literals, each left unassigned |
| MiniSat.MiniSATSolver.CancelUntil | simplesat/sat/minisat.py:265-269 | cancels levels until at most `level` remain |
| MiniSat.MiniSATSolver.Assume | simplesat/sat/minisat.py:279-281 | opens a level at the current trail length, then behaves as `enqueue` |
| MiniSat.MiniSATSolver.AddClause | simplesat/sat/minisat.py:69-90 | as written: an empty clause sets status False; a unit is enqueued and a clash with it is ignored; a longer clause is stored and watched on its first two literals |
| MiniSat.MiniSATSolver.StoreClause | simplesat/sat/minisat.py:86-90 | the clause is appended and filed under `-p` and `-q` |
| MiniSat.MiniSATSolver.AddClauseLits | simplesat/sat/minisat.py:75-76 | a fresh de-duplicated, unlearned clause is added as above |
| MiniSat.MiniSATSolver.AddClauseChecked | simplesat/sat/minisat.py:82-84 | corrected: a unit clause that clashes with the current value sets status False |
| MiniSat.MiniSATSolver.AddUnitChecked | simplesat/sat/minisat.py:82-84 | corrected unit case: enqueued when unassigned, status False when already false, nothing when already true |
| MiniSat.MiniSATSolver.AddClauseLitsChecked | simplesat/sat/minisat.py:75-84 | the corrected `add_clause` on a list of literals |
| MiniSat.MiniSATSolver.Visit | simplesat/sat/minisat.py:108-112 | the clause's literals and the unit are `Rewatched` of the old ones, and the watch invariant holds with one clause fewer pending |
| MiniSat.MiniSATSolver.ProcessWatchers | simplesat/sat/minisat.py:107-127 | the inner loop: a returned conflict is a stored clause all of whose literals are false, the queue then emptied |
| MiniSat.MiniSATSolver.Propagate | simplesat/sat/minisat.py:101-127 | the queue ends empty, the table only grows, and a returned conflict is a stored falsified clause |
| MiniSat.MiniSATSolver.PopUntilSeen | simplesat/sat/minisat.py:219-224 | pops the trail until a seen variable is undone, returning it and its reason; IndexError on an empty trail |
| MiniSat.MiniSATSolver.Analyze | simplesat/sat/minisat.py:185-231 | the learned clause is fresh and learned, ends with the negated UIP popped from the trail, and the backtrack level is the highest level read, each read being the learned literal's level before the call (or -1 once undone) and never the current level |
| MiniSat.MiniSATSolver.TraceConflict | simplesat/sat/minisat.py:201-228 | the analysis loop keeps the tally consistent with the levels read and the trail only shrinks |
| MiniSat.MiniSATSolver.Record | simplesat/sat/minisat.py:233-254 | the literals are `Arranged`, the clause is stored when it has two or more, and its first literal is assigned afterwards |
| MiniSat.MiniSATSolver.Search | simplesat/sat/minisat.py:148-173 | a model is the full table with every variable assigned; unsatisfiable means a stored clause is false at the root level; errors are the exceptions the source can raise |
| MiniSat.MiniSATSolver.Learn | simplesat/sat/minisat.py:171-173 | analyze, backtrack to max(btlevel, root level), record; the only new clause is the learned one |
| MiniSat.MiniSATSolver.SetupAssignments | simplesat/sat/minisat.py:92-99 | every clause variable becomes a key, mapped to None when new; no status changes |
| MiniSat.MiniSATSolver.ClauseVars | simplesat/sat/minisat.py:95 | holds every variable of every stored clause |
| MiniSat.FromRules | simplesat/sat/minisat.py:17-37 | the status is False exactly when some rule is empty, no decision is made, every clause variable is in the table |
| MiniSat.FromRulesChecked | simplesat/sat/minisat.py:17-37 | with the corrected `add_clause`: an empty rule still gives False, and False now means the rules have no solution |
| MiniSat.FromRulesMissesClash | simplesat/sat/minisat.py:82-84 | as written: the rules [x] and [-x] leave the status None although they have no solution |
| MiniSat.ClashingUnits | simplesat/sat/minisat.py:82-84 | [x] and [-x] have no empty rule and no solution |
| MiniSat.ClashUnsatisfiable | simplesat/sat/minisat.py:82-84 | rules forcing both x and -x have no solution |
| MiniSat.EmptyUnsatisfiable | simplesat/sat/minisat.py:78-81 | rules with an empty one have no solution |
| MiniSat.Validate | simplesat/sat/minisat.py:175-183 | true exactly when every clause shares a literal with the literals read off the solution |
| Pools.OfName | simplesat/pool.py:50-51 | the packages added under a name: exactly those of `added` with that name |
| Pools.Matching | simplesat/pool.py:51-53 | exactly the candidates whose version the requirement matches |
| Pools.AddOne | simplesat/pool.py:32-38 | adding one package keeps the pool's tables consistent: the next id, both id maps and the by-name lists |
| Pools.Accepted | simplesat/pool.py:49-54 | the filtering loop computes `Matching` of the candidates |
| Pools.Pool.constructor | simplesat/pool.py:12-22 | a consistent pool holding every package of the repositories, in order |
| Pools.Pool.AddRepository | simplesat/pool.py:24-38 | the repository's packages are appended in iteration order and the tables stay consistent |
| Pools.Pool.WhatProvides | simplesat/pool.py:40-54 | the packages of the requirement's name that it matches, in the order they were added; empty for an unknown name |
| Pools.Pool.PackageId | simplesat/pool.py:56-62 | an id exactly for an added package, the position of its last addition; ValueError otherwise |
| Pools.Pool.IdToString | simplesat/pool.py:64-73 | defined exactly for ids of added packages; '+' for positive ids, '-' otherwise, then name, '-' and version |
| Pools.Pool.IdsInverse | simplesat/pool.py:36-37 | the id maps invert each other, exactly so when no package was added twice |
| Pools.Pool.IdToStringNegated | simplesat/pool.py:68-73 | an id and its negation print the same package with opposite signs |
| Repositories.Insort | simplesat/repository.py:54 | `bisect.insort`: one more element, the same others |
| Repositories.InsortSorted | simplesat/repository.py:53-54 | inserting a new name keeps the names sorted |
| Repositories.SortByVersion | simplesat/repository.py:59-61 | the sort by version: a version-sorted permutation |
| Repositories.SortSorted | simplesat/repository.py:59-61 | sorting an already sorted list changes nothing |
| Repositories.SortSortedSnoc | simplesat/repository.py:56-61 | append then sort equals insertion into the sorted list |
| Repositories.ListedOrdered | simplesat/repository.py:35-38 | iteration is ordered by name, then by version, whatever the insertion order |
| Repositories.AddKeepsValid | simplesat/repository.py:40-61 | adding keeps names sorted and listed, each list version-sorted, and iteration gains exactly the package |
| Repositories.AddAllValid | simplesat/repository.py:104-111 | adding many keeps the invariant and iteration gains exactly those packages |
| Repositories.Repository.Len | simplesat/repository.py:30-33 | the total length of every list in the table, in any state: the packages iteration yields plus those under unlisted names, and exactly the iterated ones in a valid repository |
| Repositories.TotalLengthRemove | simplesat/repository.py:30-33 | the sum over the table's lists does not depend on the order the keys are taken in |
| Repositories.TotalLengthSplit | simplesat/repository.py:30-38 | the total splits into the lists of the listed names, which iteration yields, and the lists of the other keys |
| Repositories.Repository.IterationIsOrdered | simplesat/repository.py:35-38 | iteration runs by name, then by version |
| Repositories.Repository.Candidates | simplesat/repository.py:99-102 | the packages of that name, version-sorted; none for an unknown name |
| Repositories.Repository.constructor | simplesat/repository.py:20-28 | a valid repository whose iteration yields the given packages, counted |
| Repositories.Repository.AddPackage | simplesat/repository.py:40-61 | the name is inserted when not yet a key and the package joins its version-sorted list; iteration gains it |
| Repositories.Repository.Update | simplesat/repository.py:104-111 | every package added in turn, iteration gaining exactly them |
| Repositories.Repository.FindPackages | simplesat/repository.py:87-102 | the packages of that name, lowest version first; an unknown name gets an empty list inserted, not listed |
| Repositories.Repository.FindPackage | simplesat/repository.py:63-85 | the first candidate with an equal version, NoPackageFound exactly when none; the lookup inserts as above |
| Repositories.Repository.LookUpAsWritten | simplesat/repository.py:79 | the `defaultdict` lookup: the list, with an empty one inserted for an unknown name |
| Repositories.FindThenAddHidesPackage | simplesat/repository.py:53-79 | as written: a lookup then an add leaves the package findable and counted by `__len__` (length 1) but never iterated |
| Repositories.AddListsPackage | simplesat/repository.py:40-61 | intended: an added package is both found and iterated |
| Requests.Request.constructor | simplesat/request.py:21-22 | no jobs |
| Requests.Request.Install | simplesat/request.py:24-25 | one install job appended |
| Requests.Request.Remove | simplesat/request.py:27-28 | one remove job appended |
| Requests.Request.Update | simplesat/request.py:30-31 | one update job appended |
| Requests.Request.AddJob | simplesat/request.py:33-34 | the job appended, others kept in order |
| Requests.RequestOfCalls | simplesat/request.py:20-34 | for any sequence of `install`/`remove`/`update` calls, the jobs are exactly those calls, in order, with their kinds |
| ConstraintParser.RunLength | simplesat/constraints/parser.py:36 | the longest run of characters of one class at the start of the text |
| ConstraintParser.ScannersWellFormed | simplesat/constraints/parser.py:22-51 | every token pattern of both scanners matches blank-free text, and the blank pattern matches only spaces |
| ConstraintParser.FirstMatch | simplesat/constraints/parser.py:22-51 | the first rule, in scanner order, with a non-empty match, and its length; None when no rule matches |
| ConstraintParser.Scan | simplesat/constraints/parser.py:134 | `scanner.scan`: the remainder is a suffix of the text |
| ConstraintParser.ScanStopsWhereNothingMatches | simplesat/constraints/parser.py:134-135 | a non-empty remainder starts where no rule matches |
| ConstraintParser.ScanKeepsText | simplesat/constraints/parser.py:134 | the tokens spell the scanned text without its blanks, followed by the remainder |
| ConstraintParser.ScanTokensNonEmpty | simplesat/constraints/parser.py:22-51 | no token has an empty value |
| ConstraintParser.PartTokens | simplesat/constraints/parser.py:134-139 | SolverException exactly when scanning the stripped part leaves text over; else its tokens |
| ConstraintParser.PartTokensSpell | simplesat/constraints/parser.py:134-139 | a part's tokens spell the stripped part without its blanks |
| ConstraintParser.TokenizeParts | simplesat/constraints/parser.py:129-140 | the blocks kept are non-empty |
| ConstraintParser.TokenizeOkIff | simplesat/constraints/parser.py:133-137 | tokenizing succeeds exactly when every part scans completely; otherwise SolverException |
| ConstraintParser.TokenizeErrorSticks | simplesat/constraints/parser.py:133-137 | the first failing part decides the result: later parts change nothing |
| ConstraintParser.Tokenize | simplesat/constraints/parser.py:129-140 | the loop over the comma-separated parts computes `TokenizeParts` |
| ConstraintParser.SpecFactory | simplesat/constraints/parser.py:109-126 | a constraint maker exactly for comparison tokens, building that operator; SolverException otherwise |
| ConstraintParser.OperatorFactory | simplesat/constraints/parser.py:143-146 | SolverException for a non-comparison, the version factory's error when it fails, else that operator on that version |
| ConstraintParser.AddOnce | simplesat/constraints/parser.py:158 | `set.add`: the element is present afterwards, nothing else is added, no duplicates arise |
| ConstraintParser.BlockConstraint | simplesat/constraints/parser.py:155-163 | a block of two tokens becomes an operator constraint; any other length is SolverException |
| ConstraintParser.ConstraintsOfBlocks | simplesat/constraints/parser.py:165-171 | the constraints collected have no duplicates |
| ConstraintParser.ConstraintsBlocksValid | simplesat/constraints/parser.py:155-171 | success means every block had two tokens and made a constraint |
| ConstraintParser.ConstraintsInOrder | simplesat/constraints/parser.py:165-171 | on success the result is the blocks' constraints, duplicates dropped |
| ConstraintParser.ConstraintsErrorSticks | simplesat/constraints/parser.py:168-169 | the first bad block decides the error |
| ConstraintParser.ParseConstraints | simplesat/constraints/parser.py:154-171 | computes `ParsedConstraints`: tokenize, then collect |
| ConstraintParser.ReadConstraintBlocks | simplesat/constraints/parser.py:168-171 | the loop over blocks computes `ConstraintsOfBlocks` |
| ConstraintParser.AddNamed | simplesat/constraints/parser.py:184-189 | `constraints[name].add(c)` on the default dictionary: the name's set becomes its old set (empty if absent) with c added once, its members exactly the old ones and c; a new name is listed last, a known one keeps its place; every other name's set is unchanged |
| ConstraintParser.BlockRequirement | simplesat/constraints/parser.py:180-193 | a block of one token gives (that name, Any); of three tokens gives (the name, the operator's constraint on the version) or the error of building that constraint; any other length is SolverException; a success always names the block's first token |
| ConstraintParser.RequirementsOfBlocks | simplesat/constraints/parser.py:195-201 | a valid name table with at most one name per block |
| ConstraintParser.RequirementsBlocksValid | simplesat/constraints/parser.py:180-201 | success means every block was well formed |
| ConstraintParser.RequirementsNamesInOrder | simplesat/constraints/parser.py:195-201 | on success the names are the blocks' first tokens, duplicates dropped, in order |
| ConstraintParser.RequirementsErrorSticks | simplesat/constraints/parser.py:198-199 | the first bad block decides the error |
| ConstraintParser.RequirementsConstraintsOf | simplesat/constraints/parser.py:180-201 | on success a constraint is in a name's set exactly when some block gives that name with that constraint |
| ConstraintParser.ParsedRequirements | simplesat/constraints/parser.py:179-201 | a successful parse is a valid name table |
| ConstraintParser.ParseRequirements | simplesat/constraints/parser.py:179-201 | computes `ParsedRequirements` |
| ConstraintParser.ReadRequirementBlocks | simplesat/constraints/parser.py:198-201 | the loop over blocks computes `RequirementsOfBlocks` |
| Requirements.NameEnd | simplesat/constraints/requirement.py:17 | the end of the leading run of characters other than '-' and '.' |
| Requirements.LineEnd | simplesat/constraints/requirement.py:19 | the end of the leading run without a line break (`.` does not match one) |
| Requirements.ParsePackageFullName | simplesat/constraints/requirement.py:16-33 | a result is a split of the full name into a name without '-' or '.', a '-', and a one-line version; SolverException otherwise |
| Requirements.ParsePackageFullNameComplete | simplesat/constraints/requirement.py:16-33 | every such split is found, so the parse fails exactly when there is none |
| Requirements.ParsePackageFullNameRoundTrip | simplesat/constraints/requirement.py:23-30 | name + "-" + version parses back to (name, version) |
| Requirements.HasAnyVersionConstraint | simplesat/constraints/requirement.py:157-167 | false exactly for no constraint or the single `*` |
| Requirements.NoVersionConstraintMatchesAll | simplesat/constraints/requirement.py:157-167 | a requirement without a version constraint matches every version |
| Requirements.FromNamed | simplesat/constraints/requirement.py:98-104 | a requirement exactly when one name was parsed, with that name; InvalidDependencyString for several, AssertionError for none |
| Requirements.FromStringOneName | simplesat/constraints/requirement.py:86-104 | a parsed string gives a requirement exactly when it has blocks that all name the same distribution, which it takes |
| Requirements.OneNameOfBlocks | simplesat/constraints/requirement.py:97-104 | the same, stated over the token blocks |
| Requirements.FromPackageString | simplesat/constraints/requirement.py:106-118 | a bad full name is SolverException; otherwise the name of the full name |
| Requirements.FromPackageStringMatches | simplesat/constraints/requirement.py:116-118 | the requirement admits exactly the version the full name gives, and it is a version constraint |
| Requirements.Items | simplesat/constraints/requirement.py:80-81 | iterating a tuple gives its items, a string its characters |
| Requirements.ConjunctionConstraints | simplesat/constraints/requirement.py:78-82 | on success the set is exactly the union of every string's constraints; the first string that fails, or a non-string (AttributeError), decides the error |
| Requirements.FromConstraints | simplesat/constraints/requirement.py:52-84 | InvalidConstraint when the tuple does not unpack into two items or the disjunction has more than one conjunction; on success the first item is the name |
| Requirements.FromConstraintsOneConjunction | simplesat/constraints/requirement.py:52-84 | an empty disjunction admits every version; one conjunction gives exactly its constraints or its error |
| ConstraintModifiersModel.LeqLeastUpperBound | simplesat/constraints/constraint_modifiers.py:19-30 | the bound keeps the upstream version and admits every build of it up to `MAX_BUILD` |
| ConstraintModifiersModel.ModifyRelaxes | simplesat/constraints/constraint_modifiers.py:33-64 | every entry of the three tables only widens a constraint: a version it admitted is still admitted (upstream matches without a build, builds up to `MAX_BUILD`) |
| ConstraintModifiersModel.ModifyShape | simplesat/constraints/constraint_modifiers.py:33-64 | no table produces an upstream match; `!=` maps to itself in every table and nothing else maps to `!=` |
| ConstraintModifiersModel.AllowNewerNoUpperBound | simplesat/constraints/constraint_modifiers.py:33-42 | after allow-newer no constraint bounds from above: a version admitted implies every newer one is, barring the `!=` version |
| ConstraintModifiersModel.AllowOlderNoLowerBound | simplesat/constraints/constraint_modifiers.py:44-53 | after allow-older no constraint bounds from below: a version admitted implies every older one is, barring the `!=` version |
| ConstraintModifiersModel.AllowAnyOnlyNot | simplesat/constraints/constraint_modifiers.py:55-64 | after allow-any a version is rejected exactly when the original was a `!=` of that version |
| ConstraintModifiersModel.ModifyAll | simplesat/constraints/constraint_modifiers.py:126-130 | the constraints keep their number and order, each replaced by its table entry |
| ConstraintModifiersModel.ModifyAllChain | simplesat/constraints/constraint_modifiers.py:113-116 | applying several tables in turn replaces each constraint by its chain of table entries, position by position |
| ConstraintModifiersModel.ModifyChainRelaxes | simplesat/constraints/constraint_modifiers.py:113-116 | a chain of tables only widens a constraint, and a non-empty chain leaves no upstream match |
| ConstraintModifiersModel.ActiveModifiers | simplesat/constraints/constraint_modifiers.py:106-116 | no table applies exactly when the name is in none of the three sets |
| ConstraintModifiersModel.TransformedConstraints | simplesat/constraints/constraint_modifiers.py:112-123 | a requirement no set names is never rebuilt; a rebuilt one holds exactly the rewritten constraints, each once, in order of first occurrence, and only when they differ from the original |
| ConstraintModifiersModel.TransformRequirement | simplesat/constraints/constraint_modifiers.py:98-123 | the loop over the older, newer and any tables returns the transformed requirement, or the original one |
| ConstraintModifiersModel.UntargetedUnchanged | simplesat/constraints/constraint_modifiers.py:112-123 | a requirement whose name is in no modifier set comes back unchanged |
| ConstraintModifiersModel.TransformRelaxes | simplesat/constraints/constraint_modifiers.py:98-130 | transforming only widens a requirement: every version it admitted is still admitted |
| ConstraintModifiersModel.IterableToSet | simplesat/constraints/constraint_modifiers.py:67-77 | a single string becomes the one-element set, not its characters; a list becomes the set of its elements |
| ConstraintModifiersModel.Targets | simplesat/constraints/constraint_modifiers.py:93-95 | a name is a target exactly when one of the three sets holds it |
| ConstraintModifiersModel.NonTargetUnchanged | simplesat/constraints/constraint_modifiers.py:140-146 | `with_modifiers` leaves every requirement whose name is not a target unchanged |
| PackageParser.LastIndex | simplesat/constraints/package_parser.py:45 | no position exactly when the separator is absent; otherwise the position holds the separator and none follows it |
| PackageParser.RSplitOnce | simplesat/constraints/package_parser.py:44-48 | with a `;` the string is the preamble, the `;` and a block text free of `;`; without one the preamble is the whole string and the block text is empty |
| PackageParser.RSplitOnceOfJoin | simplesat/constraints/package_parser.py:44-48 | splitting at the last separator gives back the two halves it joined |
| PackageParser.BlockAt | simplesat/constraints/package_parser.py:18 | a block match consumes at least one character and no more than the text |
| PackageParser.BlockAtOf | simplesat/constraints/package_parser.py:18 | a word, blanks and a parenthesised text without newline or `)` are matched as one block with that kind and body |
| PackageParser.DependsBlockMatches | simplesat/constraints/package_parser.py:18 | the block text ` depends (x)` yields exactly one `depends` block whose body is `x` |
| PackageParser.DependencyAt | simplesat/constraints/package_parser.py:14-20 | a dependency match consumes at least one character; there is none exactly when the text is empty or does not start with a name's first character |
| PackageParser.DependencyAtOf | simplesat/constraints/package_parser.py:14-20 | a name, blanks and a constraint running to a comma or the end are matched as one dependency with that name and constraint |
| PackageParser.BareNameSwallowsComma | simplesat/constraints/parser.py:36 | as written, `nose, pil` is one dependency: the name `nose,` with the constraint `pil` |
| PackageParser.BareNamesSeparated | simplesat/constraints/package_parser.py:20 | with names ending at a comma, `nose, pil` is the two bare names |
| PackageParser.CollectGroups | simplesat/constraints/package_parser.py:57-61 | each collected name maps to exactly its constraint strings in order, never to none; a name not given is absent |
| PackageParser.CollectDependencies | simplesat/constraints/package_parser.py:57-61 | the inner loop builds the dictionary of the block's dependency matches |
| PackageParser.Canonical | simplesat/constraints/package_parser.py:25-27 | a kind is `install_requires` after the synonym lookup exactly when it was `depends` or `install_requires`; other kinds are kept |
| PackageParser.CollectBlocksResult | simplesat/constraints/package_parser.py:50-62 | the blocks are accepted exactly when every kind is known, else `ValueError`; then the last block gives the install requirements, and there are none without a block |
| PackageParser.CollectBlocksErrorSticks | simplesat/constraints/package_parser.py:54-56 | once an unknown kind is met, later blocks do not change the `ValueError` |
| PackageParser.SortedItems | simplesat/constraints/package_parser.py:64-71 | the items are sorted by name and list exactly the dictionary's pairs |
| PackageParser.HeadIsLeast | simplesat/constraints/package_parser.py:68 | the first name of name-sorted items is the least key of the dictionary |
| PackageParser.SortedItemsUnique | simplesat/constraints/package_parser.py:68 | sorted items listing a dictionary's pairs are those `sorted` builds: the result does not depend on iteration order |
| PackageParser.ParsePreamble | simplesat/constraints/package_parser.py:127-132 | a preamble is accepted exactly when its stripped text splits into two whitespace-separated words, and then gives those two words in order; otherwise `ValueError` |
| PackageParser.PreambleRoundTrip | simplesat/constraints/package_parser.py:127-132 | a name and a version without whitespace, joined by a space, are read back |
| PackageParser.ParseSpec | simplesat/constraints/package_parser.py:35-77 | a parsed package has a non-empty name without whitespace, and its install requirements are sorted by name |
| PackageParser.ParsedItems | simplesat/constraints/package_parser.py:50-77 | a successful parse holds the sorted items of the collected blocks, or no install requirements when there was no block |
| PackageParser.ReadBlocks | simplesat/constraints/package_parser.py:50-62 | the outer loop over the block matches computes the collected blocks or the `ValueError` |
| PackageParser.Parse | simplesat/constraints/package_parser.py:35-77 | `parse` as written returns the specified package dictionary or error |
| PackageParser.UnknownKindRejected | simplesat/constraints/package_parser.py:54-56 | any block of an unknown kind makes the parse fail with `ValueError`, whatever the preamble |
| PackageParser.ParsedWithoutBlocks | simplesat/constraints/package_parser.py:50-71 | a parsed package has install requirements exactly when its string has a block |
| PackageParser.CollectNames | simplesat/constraints/package_parser.py:58-61 | every dependency's name is a key of the collected dictionary |
| PackageParser.ParsedInstallRequires | simplesat/constraints/package_parser.py:50-71 | a parsed package's install requirements list exactly the dependencies of its last block |
| PackageParser.ParsedFromLastBlock | simplesat/constraints/package_parser.py:50-71 | a parsed package's install requirements are the sorted items of its last block, earlier blocks being overwritten |
| PackageParser.SortedCollected | simplesat/constraints/package_parser.py:57-71 | the sorted items of collected dependencies list exactly those dependencies |
| PackageParser.Conjunction | simplesat/constraints/package_parser.py:107-112 | each constraint string of a conjunction becomes one pair with the distribution, in order |
| PackageParser.FlattenAppend | simplesat/constraints/package_parser.py:107-112 | requirements listed later are flattened after those listed earlier |
| PackageParser.PrettyEach | simplesat/constraints/package_parser.py:107-112 | one stripped `name constraint` string per pair, in order |
| PackageParser.PrettyDependencyText | simplesat/constraints/package_parser.py:108 | the stripped text of one pair is the name alone when the constraint is empty, else the name, a space and the constraint |
| PackageParser.PackageToPrettyStringAsWritten | simplesat/constraints/package_parser.py:117-124 | the string carries a `depends` block exactly when there are install requirements |
| PackageParser.PackageToPrettyString | simplesat/constraints/package_parser.py:117-124 | the string carries a `depends` block exactly when there are install requirements |
| PackageParser.DependencyAtPretty | simplesat/constraints/package_parser.py:20 | one pair's text followed by nothing or a comma is matched back as that pair |
| PackageParser.DependenciesOfPretty | simplesat/constraints/package_parser.py:107-123 | the comma-joined texts of well-formed pairs are read back as exactly those pairs |
| PackageParser.NamesDistinct | simplesat/constraints/package_parser.py:68 | names in sorted items are distinct |
| PackageParser.FlattenForAbsent | simplesat/constraints/package_parser.py:107-112 | a name no requirement has gets no constraint from the flattened pairs |
| PackageParser.FlattenForPresent | simplesat/constraints/package_parser.py:107-112 | in the flattened pairs a requirement's name gets exactly its conjunction |
| PackageParser.CollectFlatten | simplesat/constraints/package_parser.py:57-71 | collecting and sorting the flattened pairs gives back the install requirements they were written from |
| PackageParser.PrettyBlocks | simplesat/constraints/package_parser.py:117-124 | the pretty string of a package with install requirements splits into its preamble and a single `depends` block collecting those requirements |
| PackageParser.PrettySplit | simplesat/constraints/package_parser.py:117-124 | the preamble of a pretty string is everything before its one `;` |
| PackageParser.DependsBlockCollect | simplesat/constraints/package_parser.py:50-62 | a lone `depends` block is collected as the dependencies it lists |
| PackageParser.PrettyStringRoundTrip | simplesat/constraints/package_parser.py:35-124 | writing a package and parsing it back gives its name, the version the factory makes of its version text (or the factory's error) and its install requirements, none when it has none |
| PackageParser.ParseAsWrittenMergesBareNames | simplesat/constraints/package_parser.py:14-20 | as written, the pretty string of two bare names parses to one requirement: the first name with its comma, constrained by the second name |
| PackageParser.BareNamesAsWritten | simplesat/constraints/package_parser.py:14-20 | as written, `a, b` collects to the single key `a,` with the constraint `b` |
| PackageParser.CommaNameTail | simplesat/constraints/parser.py:36 | as written, a name followed by a comma is still one name |
| PackageParser.SpaceJoinMergesDependencies | simplesat/constraints/package_parser.py:121 | the space-joined `MKL == 10.3 nose` is read back as the one dependency `MKL` constrained by `== 10.3 nose` |
| PackageParser.MergedDependency | simplesat/constraints/package_parser.py:20 | the text `MKL == 10.3 nose` is one dependency, its constraint running to the end |
| PackageParser.SpaceJoinRoundTripFails | simplesat/constraints/package_parser.py:117-124 | the pretty string as written of `a` constrained by `c` and bare `b` parses back as one requirement `a` constrained by `c b` |
| PackageParser.SpaceJoinCollected | simplesat/constraints/package_parser.py:57-61 | read with names ending at a comma, `a c b` is still the one dependency `a` constrained by `c b` |
| RulesGenerators.NewRule | simplesat/rules_generator.py:64-68 | a rule's literals are a sorted permutation of the ones given, and it keeps its reason |
| RulesGenerators.SameRuleIffPermuted | simplesat/rules_generator.py:129-137 | two new rules are equal (equality and hash are by literals) exactly when they were given the same literals in some order |
| RulesGenerators.IsAssertionOfNew | simplesat/rules_generator.py:70-72 | a new rule is an assertion exactly when it was given one literal |
| RulesGenerators.InsertRule | simplesat/rules_generator.py:265-279 | the ordered rule set only grows, by at most one rule; afterwards it holds the rule's literals; a rule already there changes nothing (the first keeps its reason); a new one goes at the end; the set stays duplicate-free |
| RulesGenerators.Without | simplesat/rules_generator.py:191-193 | the candidates kept are exactly those other than the package |
| RulesGenerators.IdsOf | simplesat/rules_generator.py:241 | the ids are found exactly when every package is in the pool, one per package in order; otherwise `ValueError` |
| RulesGenerators.IdsOfMembers | simplesat/rules_generator.py:241 | an id is listed exactly when it is the id of one of the packages |
| RulesGenerators.DependencyLiterals | simplesat/rules_generator.py:189-195 | the literals exist exactly when the package and every other candidate are in the pool; otherwise `ValueError` |
| RulesGenerators.DependencyLiteralsMeaning | simplesat/rules_generator.py:189-195 | the clause reads "not the package, or one of its candidates": the package's negated id first, then exactly the positive ids of the candidates other than the package |
| RulesGenerators.CandidateIds | simplesat/rules_generator.py:191-193 | the loop collects the ids of the candidates other than the package, in order |
| RulesGenerators.CreateDependencyRule | simplesat/rules_generator.py:166-195 | `_create_dependency_rule` returns the specified rule or `ValueError` |
| RulesGenerators.DependencyRule | simplesat/rules_generator.py:166-195 | the rule exists exactly when its literals do, and holds exactly them |
| RulesGenerators.ConflictRule | simplesat/rules_generator.py:197-222 | no rule when a package would conflict with itself; otherwise a rule exactly when both packages are in the pool |
| RulesGenerators.ConflictRuleMeaning | simplesat/rules_generator.py:219-222 | the conflict clause of two distinct packages is the sorted pair of their negated ids |
| RulesGenerators.InstallOneOfRule | simplesat/rules_generator.py:224-242 | the rule exists exactly when every package is in the pool, and holds their ids |
| RulesGenerators.InstallOneOfMeaning | simplesat/rules_generator.py:224-242 | one positive literal per package, and the literals are exactly the packages' ids |
| RulesGenerators.RemoveRule | simplesat/rules_generator.py:244-262 | the rule exists exactly when the package is in the pool; it is the assertion of the package's negated id |
| RulesGenerators.RankOrder | simplesat/rules_generator.py:393-395 | the update key `(version, installed)` orders packages strictly and totally |
| RulesGenerators.GreatestIndex | simplesat/rules_generator.py:396 | `max` picks a position no other rank exceeds, and the first such one |
| RulesGenerators.Ranks | simplesat/rules_generator.py:393-395 | each package's key is its version and whether its id is installed |
| RulesGenerators.UpdateTarget | simplesat/rules_generator.py:382-396 | the update target exists exactly when every provider is in the pool; it is a provider of the newest version, an installed one winning among equal versions |
| RulesGenerators.IdSet | simplesat/rules_generator.py:425-434 | the id set exists exactly when every package is in the pool |
| RulesGenerators.IdSetMeaning | simplesat/rules_generator.py:425-434 | the id set holds exactly the ids of the packages |
| RulesGenerators.ProvidersInPool | simplesat/pool.py:40-54 | every package the pool provides for a requirement is in the pool and has the requirement's name |
| RulesGenerators.ConstrainIdsMeaning | simplesat/rules_generator.py:425-435 | the ids a constrain job forbids are exactly those of the name's packages that the requirement does not accept |
| RulesGenerators.NegatedSorted | simplesat/rules_generator.py:440-446 | going through the forbidden ids in sorted order forbids all of them |
| RulesGenerators.Installed | simplesat/rules_generator.py:158 | the installed packages are the values of `installed_map`, in its order |
| RulesGenerators.RulesGenerator.constructor | simplesat/rules_generator.py:141-147 | an empty rule set and no taken-up ids, over the given pool, request and installed map |
| RulesGenerators.RulesGenerator.AddRule | simplesat/rules_generator.py:265-279 | the rule set becomes the insertion of the rule, or is unchanged for no rule |
| RulesGenerators.RulesGenerator.AddRequiresRule | simplesat/rules_generator.py:282-302 | the rules only grow; a requirement that cannot be built is its own error; a built one fails with `NoPackageFound` exactly when nothing provides it, and otherwise records its clause and queues exactly its providers |
| RulesGenerators.RulesGenerator.AddInstallRequiresRules | simplesat/rules_generator.py:281-302 | without error, a requires clause is recorded for every dependency of the package; everything queued is in the pool |
| RulesGenerators.RulesGenerator.AddConflictsWith | simplesat/rules_generator.py:316-324 | a conflict clause is recorded between the package and every provider other than itself |
| RulesGenerators.RulesGenerator.AddConflictWith | simplesat/rules_generator.py:317-324 | the conflict clause with one provider is recorded unless it is the package itself |
| RulesGenerators.RulesGenerator.AddExplicitConflicts | simplesat/rules_generator.py:327-346 | the rules only grow; a conflict requirement that cannot be built is its own error; a built one fails with `NoPackageFound` exactly when nothing provides it, and otherwise records the conflict clauses with its providers |
| RulesGenerators.RulesGenerator.AddConflictsRules | simplesat/rules_generator.py:304-346 | without error, the package conflicts with every other provider of its bare name and with every provider of each declared conflict |
| RulesGenerators.RulesGenerator.ProcessPackage | simplesat/rules_generator.py:360-361 | without error, all the rules of one package are recorded and the packages queued are exactly the providers of each of its dependencies, dependency by dependency, in order; all of them are in the pool |
| RulesGenerators.RulesGenerator.AddPackageRules | simplesat/rules_generator.py:348-361 | the rules and taken-up ids only grow; without error the package is taken up, every id the work queue took up has its rules recorded, and the taken-up ids are closed: every provider of a dependency of a taken-up package is taken up with its rules recorded |
| RulesGenerators.RulesGenerator.Visit | simplesat/rules_generator.py:356-361 | one turn of the work queue keeps the walk's invariant (every id taken up has its rules recorded, and every provider of its dependencies is taken up or still queued) and makes progress: fewer untaken ids, or a shorter queue |
| RulesGenerators.RulesGenerator.TakeUp | simplesat/rules_generator.py:358-361 | a new id is marked and its package's rules are recorded |
| RulesGenerators.RulesGenerator.Mark | simplesat/rules_generator.py:359 | the id joins the taken-up ids, once |
| RulesGenerators.RulesGenerator.AddEachPackageRules | simplesat/rules_generator.py:366-369 | without error, every package given is taken up |
| RulesGenerators.RulesGenerator.AddInstallJobRules | simplesat/rules_generator.py:363-373 | no provider means no change; otherwise the providers are taken up and the clause "one of the providers" is recorded |
| RulesGenerators.RulesGenerator.AddInstallProviders | simplesat/rules_generator.py:366-373 | the providers are taken up, then the install-one-of clause is recorded |
| RulesGenerators.RulesGenerator.AddInstallOneOfRule | simplesat/rules_generator.py:371-373 | the clause "one of the providers" is recorded |
| RulesGenerators.RulesGenerator.AddRemoveJobRules | simplesat/rules_generator.py:375-380 | the clause "not p" is recorded for every provider, and every rule added is such a clause |
| RulesGenerators.RulesGenerator.AddRemoveRule | simplesat/rules_generator.py:377-380 | one more provider's "not p" clause is recorded, no other rule added |
| RulesGenerators.RulesGenerator.AddUpdateJobRules | simplesat/rules_generator.py:382-403 | no provider means no change; otherwise the update target is taken up and its unit clause recorded |
| RulesGenerators.RulesGenerator.AddUpdateTargetRules | simplesat/rules_generator.py:393-403 | the unit clause of the newest provider (installed first among equals) is recorded |
| RulesGenerators.RulesGenerator.AddTargetRules | simplesat/rules_generator.py:397 | without error the update target is taken up |
| RulesGenerators.RulesGenerator.AddUpdateUnit | simplesat/rules_generator.py:398-403 | the unit clause of the target is recorded |
| RulesGenerators.RulesGenerator.AddConstrainJobRules | simplesat/rules_generator.py:405-446 | only negative unit clauses are added; it fails exactly when the bare name is not a requirement; otherwise every package of the name the requirement rejects is forbidden |
| RulesGenerators.RulesGenerator.AddNegatedRules | simplesat/rules_generator.py:440-446 | every forbidden id gets its "not id" clause, and nothing else is added |
| RulesGenerators.RulesGenerator.AddNegatedRule | simplesat/rules_generator.py:441-446 | one more id's "not id" clause is recorded |
| RulesGenerators.RulesGenerator.AddJob | simplesat/rules_generator.py:454-462 | without error, the rules of the job's kind are recorded |
| RulesGenerators.RulesGenerator.AddJobRules | simplesat/rules_generator.py:453-465 | without error, the rules of every job of the request are recorded |
| RulesGenerators.RulesGenerator.AddInstalledPackageRules | simplesat/rules_generator.py:448-451 | without error, every package of the installed package's name is taken up |
| RulesGenerators.RulesGenerator.IterRules | simplesat/rules_generator.py:149-160 | the rules returned are the duplicate-free rule set; every job's rules are recorded, every installed package is taken up, and the taken-up ids are closed under dependency providers with all their rules recorded |
| RulesGenerators.WalkClosedMeaning | simplesat/rules_generator.py:348-361 | once the queue is empty and the walk has handled exactly the ids taken up, those ids are closed under dependency providers and every one has its rules recorded |
| RulesGenerators.RulesGenerator.InstalledStep | simplesat/rules_generator.py:159-160 | without error the installed package is taken up |
| Transactions.Drop | simplesat/transaction.py:140-143 | the keys kept are exactly those other than the popped one, still without duplicates |
| Transactions.Put | simplesat/transaction.py:79-90 | an ordered table stays well formed; the key maps to the operation; a key already there keeps its place |
| Transactions.Pop | simplesat/transaction.py:140-143 | an ordered table stays well formed and loses exactly that key |
| Transactions.Values | simplesat/transaction.py:156 | the values are the table's operations in key order, one per key |
| Transactions.Others | simplesat/transaction.py:104-108 | the updates of a package are exactly the providers of its name other than itself |
| Transactions.MeansSnoc | simplesat/transaction.py:113-120 | the means-update map of one more decision is the map so far taken one step further |
| Transactions.OneDecisionSorted | simplesat/transaction.py:66 | sorting the decisions keeps one decision per id |
| Transactions.FirstPassMeaning | simplesat/transaction.py:66-82 | with one decision per id, a package is installed exactly when decided for, not installed and no removed installed package is updated to it; updated exactly when one is, from that package; the ignored removals are exactly the packages updated from |
| Transactions.FirstStepMeaning | simplesat/transaction.py:67-82 | one more decision on a new id keeps the first pass's tables right |
| Transactions.SecondPassMeaning | simplesat/transaction.py:84-90 | a package is removed exactly when it is decided against, installed and not the source of an update |
| Transactions.RootsWritten | simplesat/transaction.py:159-184 | the roots as written are among the merged table's keys |
| Transactions.Roots | simplesat/transaction.py:159-184 | the intended roots, where a package does not pop itself, are among the merged table's keys |
| Transactions.SelfDependencyLeavesNoRoot | simplesat/transaction.py:180-182 | as written, a lone package among its own dependency candidates pops itself and leaves no root |
| Transactions.RootsShrink | simplesat/transaction.py:170-182 | the roots only shrink as packages are looked at |
| Transactions.PoppedBy | simplesat/transaction.py:173-182 | a key that stops being a root was popped by a package that was a root at its turn |
| Transactions.RootsReachAll | simplesat/transaction.py:159-184 | every key lies in any set holding the roots and closed under dependency candidates: a walk from the roots meets every package |
| Transactions.RootAtTurnReached | simplesat/transaction.py:173-182 | a package that was a root at its turn lies in any such closed set |
| Transactions.RootsNonEmpty | simplesat/transaction.py:159-184 | with at least one package to install or update there is at least one root |
| Transactions.NonCandidateIsRoot | simplesat/transaction.py:159-184 | a package that is no other package's candidate stays a root |
| Transactions.RootsIndependent | simplesat/transaction.py:159-184 | no root is a dependency candidate of another root |
| Transactions.Keep | simplesat/transaction.py:168-182 | the keys kept are exactly those in the set, in order, still without duplicates |
| Transactions.Restrict | simplesat/transaction.py:168-182 | the table restricted to a key set stays well formed, holds exactly those keys, with their operations |
| Transactions.PopRestrict | simplesat/transaction.py:182 | popping a key from a restriction restricts further |
| Transactions.RestrictAll | simplesat/transaction.py:168 | the copy of the table before any pop is the table itself |
| Transactions.CandidatesInPool | simplesat/transaction.py:177-179 | every dependency candidate is a package of the pool |
| Transactions.CollectCandidates | simplesat/transaction.py:176-179 | the loop gathers the providers of each requirement in turn |
| Transactions.PopCandidates | simplesat/transaction.py:180-182 | popping each candidate's id removes exactly those ids from the roots, the package's own included |
| Transactions.RootStep | simplesat/transaction.py:170-182 | one package taken further: still a root, it pops its candidates |
| Transactions.ComputeRootPackages | simplesat/transaction.py:159-184 | the roots returned are the merged table restricted to the roots as written |
| Transactions.RootsWrittenAgree | simplesat/transaction.py:180-182 | when no package is among its own candidates, the roots as written are the intended roots |
| Transactions.RootsWrittenWithin | simplesat/transaction.py:180-182 | the roots as written are among the intended roots, and a root lost is a package that popped itself |
| Transactions.EmitInstall | simplesat/transaction.py:139-141 | emitting a pending install keeps the bookkeeping: each emitted operation is logged once against its table entry |
| Transactions.EmitUpdate | simplesat/transaction.py:142-144 | emitting a pending update keeps the bookkeeping |
| Transactions.PopMet | simplesat/transaction.py:135-144 | popping a package met before keeps what was explored |
| Transactions.PushNew | simplesat/transaction.py:145-154 | meeting a package first and pushing its candidates keeps what was explored |
| Transactions.WalkStep | simplesat/transaction.py:134-154 | one turn of the traversal keeps the bookkeeping and the exploration, and meets one more id or shrinks the stack; `ValueError` for a package not in the pool |
| Transactions.PushCandidates | simplesat/transaction.py:145-154 | a new package is met and the candidates of its dependencies go on the stack |
| Transactions.EmitPending | simplesat/transaction.py:138-144 | a package met before leaves the stack and emits its pending install, then its pending update |
| Transactions.PackagesOf | simplesat/transaction.py:127 | the packages of the operations, in order |
| Transactions.Traverse | simplesat/transaction.py:127-154 | the traversal ends with an empty stack, its operations logged against the tables and every package reachable from the roots explored; `ValueError` exactly for a root package not in the pool; when the candidate graph has a ranking that falls along every arc (no cycle), each operation comes after those of its package's candidates |
| Transactions.DepthFirstPush | simplesat/transaction.py:145-154 | a package met for the first time opens above the open packages, keeping the depth-first invariant: the open ids are ranked in stack order and the operations emitted so far are in dependency order |
| Transactions.DepthFirstPop | simplesat/transaction.py:138-144 | a package met before leaves the stack; if it is the last open one, all its candidates are finished, so what it emits comes after them and the dependency order holds |
| Transactions.ArcsSame | simplesat/transaction.py:176 | sorting the dependency strings leaves the candidate arcs the same, so a ranking and a dependency order carry over between the two |
| Transactions.Merge | simplesat/transaction.py:165-166 | the merged table holds the keys of both, an update winning over an install |
| Transactions.CandidatesMembers | simplesat/transaction.py:148-152 | the candidates are exactly the packages provided for one of the requirements |
| Transactions.SameCandidateIds | simplesat/transaction.py:148 | the same requirements in another order give the same candidate ids |
| Transactions.TraversalComplete | simplesat/transaction.py:124-154 | from the intended roots, a finished traversal emits every pending install and update |
| Transactions.AllVisited | simplesat/transaction.py:134-154 | a finished traversal from the roots of the merged tables has met every key |
| Transactions.NothingLeft | simplesat/transaction.py:138-144 | with every key met and none left pending, everything was emitted |
| Transactions.PointAtPrefixErr | simplesat/transaction.py:118-120 | an error on a prefix of the updates is the error of the whole |
| Transactions.ComputeFindUpdates | simplesat/transaction.py:104-108 | `_find_updates` returns the specified updates of the package |
| Transactions.PointUpdates | simplesat/transaction.py:118-120 | every update's id maps to the removed package |
| Transactions.ComputeMeansUpdateMap | simplesat/transaction.py:110-122 | the loop over the sorted decisions builds the means-update map or its error |
| Transactions.ComputeMeansStep | simplesat/transaction.py:114-120 | one decision: a removed installed package points its updates at itself |
| Transactions.FirstPassLoop | simplesat/transaction.py:66-82 | the first loop builds the specified install and update tables and ignored removals |
| Transactions.SecondPassLoop | simplesat/transaction.py:84-90 | the second loop builds the specified removal table |
| Transactions.FirstPassShape | simplesat/transaction.py:66-82 | the first pass keeps its tables well formed, whatever the decisions |
| Transactions.ParseAll | simplesat/transaction.py:149-150 | one requirement per dependency string, in order |
| Transactions.SortedDepsSame | simplesat/transaction.py:176 | sorting the dependency strings changes their order, not which requirements there are |
| Transactions.Removals | simplesat/transaction.py:156-157 | one removal per operation of the removal table, in order |
| Transactions.WrittenTraversalComplete | simplesat/transaction.py:124-184 | with no package twice in the pool and none among its own candidates, the code as written emits every pending install and update |
| Transactions.OperationsFromMaps | simplesat/transaction.py:124-157 | installs and updates in traversal order from the roots, then every removal; `ValueError` for a root not in the pool; removals come last; everything is emitted when no package is its own candidate; with no cycle among the candidates, each operation comes after those of its dependencies' candidates |
| Transactions.AppendRemovals | simplesat/transaction.py:156-157 | the removals are appended after the operations so far |
| Transactions.WalkHasNoRemovals | simplesat/transaction.py:134-157 | the traversal emits installs and updates only, so removals come last |
| Transactions.TransactionOperations | simplesat/transaction.py:56-93 | the means-update map, the two passes and the operations from the tables, the first error met being the result |
| Transactions.TransactionComplete | simplesat/transaction.py:56-157 | a transaction installs exactly the packages of the install table and updates exactly those of the update table, each once and as the package of its id, and removes after all of them; with no cycle among the candidates an operation comes after those of its dependencies' candidates |
| Transactions.Transaction.constructor | simplesat/transaction.py:31 | a new transaction has no operations |
| Transactions.Transaction.Install | simplesat/transaction.py:95-96 | an install of the package is appended |
| Transactions.Transaction.Remove | simplesat/transaction.py:98-99 | a removal of the package is appended |
| Transactions.Transaction.Update | simplesat/transaction.py:101-102 | an update to the new package from the old one is appended |
| Transactions.Transaction.ComputeTransaction | simplesat/transaction.py:56-93 | the computed operations are appended, or nothing changes on an error |
| Transactions.NewTransaction | simplesat/transaction.py:30-33 | a fresh transaction holding exactly the computed operations, or the error the computation raises |
| Graphs.Targets | simplesat/utils/graph.py:38 | an item is a target exactly when some key points to it |
| Graphs.UnionUpToMeaning | simplesat/utils/graph.py:44-51 | an item is in the union of the first levels exactly when one of them holds it |
| Graphs.Prepare | simplesat/utils/graph.py:31-42 | an empty graph raises `TypeError` (the union over no sets); otherwise the keys are the graph's keys and targets, self-dependencies are dropped, and items only met as dependencies depend on nothing |
| Graphs.Ready | simplesat/utils/graph.py:45 | the ready items are exactly those with no dependency left |
| Graphs.Remove | simplesat/utils/graph.py:49-51 | one round later the ready items are gone, as keys and as dependencies |
| Graphs.FewerKeys | simplesat/utils/graph.py:44-51 | each round that yields a level leaves fewer items, so the loop ends |
| Graphs.RoundsLayered | simplesat/utils/graph.py:44-51 | every dependency of an item of a level comes out in an earlier level |
| Graphs.RoundsCover | simplesat/utils/graph.py:44-51 | the levels and what is left make up the graph, and nothing left has come out |
| Graphs.RoundsDisjoint | simplesat/utils/graph.py:44-51 | no level is empty and no item comes out twice |
| Graphs.RoundsStuck | simplesat/utils/graph.py:44-55 | every item left when the rounds stop waits on another item left: what raises is a cycle |
| Graphs.PreparedClosed | simplesat/utils/graph.py:38-42 | every dependency of the prepared graph is one of its keys |
| Graphs.RoundsLeftWithin | simplesat/utils/graph.py:49-51 | what is left keeps a part of each item's dependencies |
| Graphs.AcyclicSorted | simplesat/utils/graph.py:44-55 | on a graph without cycles nothing is left over, so `toposort` raises nothing |
| Graphs.NothingStuck | simplesat/utils/graph.py:52-55 | in a graph without cycles no non-empty part has every item waiting on another |
| Graphs.Toposort | simplesat/utils/graph.py:11-55 | `TypeError` for an empty graph; otherwise the levels of the rounds, with `ValueError` exactly when items are left over |
| Graphs.RunRounds | simplesat/utils/graph.py:44-51 | the loop yields the rounds' levels and leaves what they leave |
| Graphs.ToposortMeaning | simplesat/utils/graph.py:11-55 | levels are layered and disjoint; without leftovers they hold every key and target; leftovers wait on each other |
| Graphs.StartInv | simplesat/utils/graph.py:71-72 | a node's entry started from its neighbours keeps the table invariants |
| Graphs.AbsorbInv | simplesat/utils/graph.py:75 | adding a neighbour's entry to the node's keeps the table invariants |
| Graphs.BuildStep | simplesat/utils/graph.py:73-75 | one neighbour handled recursively and absorbed keeps the build invariant |
| Graphs.Transitive | simplesat/utils/graph.py:67-76 | a node with an entry is left alone; otherwise its entry is built, entries already there unchanged; every entry includes the node's neighbours and only reachable nodes, all of them on a graph without cycles; `KeyError` only when a neighbour is not a key |
| Graphs.Neighbours | simplesat/utils/graph.py:73-75 | the loop over the neighbours keeps the build invariant to the last neighbour |
| Graphs.Absorb | simplesat/utils/graph.py:74-75 | one neighbour's entry is built and added to the node's |
| Graphs.TransitiveNeighbors | simplesat/utils/graph.py:58-64 | succeeds exactly when every neighbour is a key, else `KeyError`; the table has every key, each entry holds its neighbours and only reachable nodes, and all of them on a graph without cycles |
| Graphs.Reach | simplesat/utils/graph.py:58-60 | the reachable nodes include the direct neighbours |
| Graphs.ReachExact | simplesat/utils/graph.py:58-76 | on a graph without cycles each finished entry is exactly the set of nodes reachable from the node |
| DependencySolverModel.SolutionToIds | simplesat/dependency_solver.py:148-153 | one signed id per variable of the solution: positive exactly when the variable is True, each literal of the solution listed once, in ascending order of absolute value |
| DependencySolverModel.ByNameMeaning | simplesat/dependency_solver.py:89-94 | the ids filed under a name are exactly the solution's literals whose package has that name |
| DependencySolverModel.Neighbors | simplesat/dependency_solver.py:96-118 | a removal (negative id) pulls in nothing; an install pulls in the solution's ids of its own name and of the names of its dependencies, never itself |
| DependencySolverModel.NeighborsInSolution | simplesat/dependency_solver.py:111-117 | every neighbour is a literal of the solution |
| DependencySolverModel.WalkStep | simplesat/dependency_solver.py:138-143 | taking a node off the queue keeps the walk's invariant: visited and queued nodes stay reachable, and each visited node's neighbours are visited or queued |
| DependencySolverModel.ConnectedNodes | simplesat/dependency_solver.py:132-145 | the visited set grows from the one passed in, holds the start node, every node it adds is reachable from the start, and it is closed under the neighbour relation for the nodes the walk visited |
| DependencySolverModel.ConnectedPackages | simplesat/dependency_solver.py:81-129 | KeyError exactly when a literal of the solution names a package not in the pool; otherwise the result holds the non-negative requested ids found in the solution, is closed under the neighbour relation, and every member is reachable from one of those roots |
| DependencySolverModel.SolveResult | simplesat/dependency_solver.py:25-48 | an unsatisfiable search gives no transaction; a model gives the transaction of its signed ids, kept only where connected to the requested ids when pruning is on (a KeyError of the walk is passed on), against the installed ids |
| DependencySolverModel.DecisionsAreModelLiterals | simplesat/dependency_solver.py:36-41 | the ids a solved transaction is computed from are literals of the model, pruned or not |
| ComputeDependencies.ReversesGrow | simplesat/compute_dependencies.py:17-19 | entering one more key's values into a reversal of the other entries gives a reversal of all of them |
| ComputeDependencies.ReverseMapping | simplesat/compute_dependencies.py:15-21 | the result reverses the mapping: a key is listed under a value exactly when the value is among the key's values |
| ComputeDependencies.ReversedEntry | simplesat/compute_dependencies.py:15-21 | a key listed under a value of the reversal maps to that value in the original |
| ComputeDependencies.ReverseTwiceKeys | simplesat/compute_dependencies.py:15-21 | reversing twice gives back exactly the keys whose value sets are not empty |
| ComputeDependencies.ReverseTwiceValues | simplesat/compute_dependencies.py:15-21 | reversing twice gives back each kept key's value set |
| ComputeDependencies.ResultGrows | simplesat/compute_dependencies.py:29-30 | adding the packages of one more provider's listed ids keeps the result the packages of all ids listed so far |
| ComputeDependencies.DependencyIdsSnoc | simplesat/compute_dependencies.py:26-28 | one more provider adds exactly the ids its entry lists |
| ComputeDependencies.DependenciesForRequirement | simplesat/compute_dependencies.py:24-32 | every provider of the requirement is in the pool, so its id lookup never fails; the result is ok exactly when every id the table lists for a provider has a package in the pool, and then is exactly the packages of those ids; otherwise KeyError; a provider the table does not list adds nothing |
| ComputeDependencies.DependenciesOfProviders | simplesat/compute_dependencies.py:26-30 | the loop over the providers is ok exactly when every listed id has a package, and collects exactly the packages of the ids listed for the providers; otherwise KeyError |
| ComputeDependencies.ReverseDependencyIds | simplesat/compute_dependencies.py:15-32 | through the reversed table, the ids listed for the providers are exactly the packages whose entries in the original table name a provider |
| UndeterminedClausePolicyModel.HasBest | simplesat/sat/policy/undetermined_clause_policy.py:114 | every non-empty set of ids has a member whose version no other member exceeds, so `max` by version is defined |
| UndeterminedClausePolicyModel.Unassigned | simplesat/sat/policy/undetermined_clause_policy.py:99-100 | an id is left exactly when it is in the set and not assigned |
| UndeterminedClausePolicyModel.Best | simplesat/sat/policy/undetermined_clause_policy.py:107-116 | None exactly when every id of the set is assigned (the ValueError of `max` over nothing); otherwise an unassigned id of the set with no unassigned id of a greater version |
| UndeterminedClausePolicyModel.FirstUnassignedMeaning | simplesat/sat/policy/undetermined_clause_policy.py:102-105 | the candidate is None exactly when every listed id is assigned; otherwise it is a listed unassigned id before which every listed id is assigned |
| UndeterminedClausePolicyModel.BestSortedCandidate | simplesat/sat/policy/undetermined_clause_policy.py:102-105 | the loop returns the first unassigned id of the list, as `FirstUnassigned` describes |
| UndeterminedClausePolicyModel.InsertByVersion | simplesat/sat/policy/undetermined_clause_policy.py:23-26 | inserting an id into the version-sorted list adds exactly that id |
| UndeterminedClausePolicyModel.AtLeastAfterInsert | simplesat/sat/policy/undetermined_clause_policy.py:23-26 | a lower version bound that holds for the list and the new id holds after the insertion |
| UndeterminedClausePolicyModel.InsertSorted | simplesat/sat/policy/undetermined_clause_policy.py:23-26 | inserting into a version-sorted list keeps it version-sorted |
| UndeterminedClausePolicyModel.SortByVersion | simplesat/sat/policy/undetermined_clause_policy.py:23-26 | the sorted installed ids are a permutation of the installed ids |
| UndeterminedClausePolicyModel.SortByVersionSorted | simplesat/sat/policy/undetermined_clause_policy.py:23-26 | the sorted installed ids ascend by version |
| UndeterminedClausePolicyModel.PreferredIdsMeaning | simplesat/sat/policy/undetermined_clause_policy.py:27-30 | a (name, version) key is preferred exactly when some installed id has that key, and the id it maps to is an installed id |
| UndeterminedClausePolicyModel.AddToTable | simplesat/sat/policy/undetermined_clause_policy.py:58-60 | after one clause is entered, each of its variables lists it and nothing else changes |
| UndeterminedClausePolicyModel.AllVarsSnoc | simplesat/sat/policy/undetermined_clause_policy.py:58-61 | the variables of one more clause join the variables seen so far |
| UndeterminedClausePolicyModel.ClauseTable | simplesat/sat/policy/undetermined_clause_policy.py:53-62 | the keys are exactly the variables of the clauses, and each variable lists exactly the clauses that mention it |
| UndeterminedClausePolicyModel.TouchedGrow | simplesat/sat/policy/undetermined_clause_policy.py:46-47 | touching one more changed key adds exactly the clauses filed under it |
| UndeterminedClausePolicyModel.UndeterminedClausePolicy.constructor | simplesat/sat/policy/undetermined_clause_policy.py:19-35 | the installed ids, sorted by version and a permutation of the installed repository's ids; each installed (name, version) mapped to an installed id; empty sets and an empty `defaultdict` table |
| UndeterminedClausePolicyModel.UndeterminedClausePolicy.AddRequirements | simplesat/sat/policy/undetermined_clause_policy.py:41-42 | the requirements grow by exactly the given ids; nothing else changes |
| UndeterminedClausePolicyModel.UndeterminedClausePolicy.BuildIdToClauses | simplesat/sat/policy/undetermined_clause_policy.py:53-62 | the table files each clause under each of its variables and nothing more, and `_all_ids` becomes exactly the variables of the clauses |
| UndeterminedClausePolicyModel.UndeterminedClausePolicy.UpdateCacheFromAssignments | simplesat/sat/policy/undetermined_clause_policy.py:44-51 | KeyError exactly when the table is a plain dict and a changed key is missing from it; otherwise each clause filed under a changed key leaves the unsatisfied set when some literal is True and joins it when none is, and other clauses stay as they were |
| UndeterminedClausePolicyModel.UndeterminedClausePolicy.RefreshDecisionSet | simplesat/sat/policy/undetermined_clause_policy.py:132-140 | the cache is updated as above, then the decision set becomes exactly the unassigned variables of the unsatisfied clauses |
| UndeterminedClausePolicyModel.UndeterminedClausePolicy.BestOfDecisionSet | simplesat/sat/policy/undetermined_clause_policy.py:107-116 | the decision set keeps only its unassigned ids, and the answer is the newest of them, None when there is none |
| UndeterminedClausePolicyModel.UndeterminedClausePolicy.ChooseCandidate | simplesat/sat/policy/undetermined_clause_policy.py:70-87 | the candidate is unassigned; it is the first unassigned installed id when installed ids are preferred and one exists, else the newest unassigned requirement when one exists, else the newest unassigned id of the decision set (which then keeps only its unassigned ids), else, after a refresh that refiles the touched clauses and rebuilds the decision set (KeyError on a key missing from a plain-dict table), the newest unassigned id of the refreshed decision set, else of all the clauses' variables, else None; with an installed or requirement candidate nothing else changes |
| UndeterminedClausePolicyModel.UndeterminedClausePolicy.GetNextPackageId | simplesat/sat/policy/undetermined_clause_policy.py:64-97 | with new keys the table and `_all_ids` are rebuilt from the clauses and the decision set refreshed (KeyError when a changed key is no clause variable), and past the first two tiers the candidate is the newest unassigned id of that decision set, else of all the clauses' variables; without new keys the candidate follows the five tiers as above, with the changelog refreshed in the fourth; it is unassigned, and without the installed preference it is replaced by the installed id of the same name and version when there is one |
| UndeterminedClausePolicyModel.Refiled | simplesat/sat/policy/undetermined_clause_policy.py:46-51 | after refiling, a listed clause is unsatisfied exactly when no literal is True; an unlisted clause keeps its standing |
| SimpleSolver.SetOwnList | simple_solver.py:31 | reading a literal's list through the `defaultdict` and storing it back keeps which clauses are watched |
| SimpleSolver.MigrateStep | simple_solver.py:33-41 | moving the last clause of the false literal's list to a non-false literal keeps every clause watched exactly once, keeps every watching variable in the assignment, and keeps the watching invariant |
| SimpleSolver.WatchedClauseSatisfied | simple_solver.py:25-47 | under a full assignment, a watched clause whose watching literal is not false is satisfied |
| SimpleSolver.AssignKeepsWatching | simple_solver.py:96-101 | assigning a variable makes false only its literal conjugated as the choice, the one `update` is called with |
| SimpleSolver.ClearKeepsWatching | simple_solver.py:113-114 | clearing the variable again restores the watching invariant |
| SimpleSolver.EmptiedWatching | simple_solver.py:46-47 | once the false literal's list is empty, no watching literal is false |
| SimpleSolver.FindAlternative | simple_solver.py:34-44 | no alternative exactly when every literal of the clause is false; otherwise the first literal that is not false; KeyError only at a variable missing from the assignment |
| SimpleSolver.Watchlist.constructor | simple_solver.py:15-18 | a new watchlist watches nothing |
| SimpleSolver.Watchlist.AddClause | simple_solver.py:22-23 | IndexError exactly when the clause is empty; otherwise the clause is appended to the list of its first literal |
| SimpleSolver.Watchlist.Update | simple_solver.py:25-47 | KeyError at an unknown variable, AssertionError when the literal is not false; otherwise the same clauses stay watched, True exactly when the false literal's list was emptied, and False when its last remaining clause has only false literals |
| SimpleSolver.NewWatchlist | simple_solver.py:15-20 | a watchlist exactly when no clause is empty (IndexError otherwise), in which every clause is watched |
| SimpleSolver.ListOf | simple_solver.py:60-62 | the variable list has no duplicates and holds exactly the names of the set |
| SimpleSolver.FullSatisfiesAll | simple_solver.py:83-84 | when every variable has a value, the search state satisfies every clause, so what is yielded is a model |
| SimpleSolver.TryStep | simple_solver.py:90-106 | one tried choice, recorded after the earlier ones, keeps the search invariant whether the variable keeps its value or is cleared |
| SimpleSolver.BacktrackStep | simple_solver.py:108-115 | backtracking clears the variable and its tried choices and keeps the invariant one variable back |
| SimpleSolver.SimpleSATSolver.constructor | simple_solver.py:58-62 | the variables are the distinct names of the clauses' literals |
| SimpleSolver.SimpleSATSolver.Setup | simple_solver.py:64-74 | IndexError exactly when a clause is empty; otherwise every variable is unassigned, nothing is tried and every clause is watched |
| SimpleSolver.SimpleSATSolver.TryChoice | simple_solver.py:90-106 | a choice already tried is skipped and nothing changes; otherwise it is appended to the tried choices, and on success the search moves one variable on with the invariant kept |
| SimpleSolver.SimpleSATSolver.Assign | simple_solver.py:95-103 | the choice is recorded and the invariant holds at the next variable on success, at this one on failure |
| SimpleSolver.SimpleSATSolver.TryBoth | simple_solver.py:88-106 | True is tried before False; nothing could be tried exactly when both were tried already |
| SimpleSolver.SimpleSATSolver.Round | simple_solver.py:82-115 | each pass keeps the search invariant; an assignment is yielded only when it gives every variable a value and satisfies every clause |
| SimpleSolver.SimpleSATSolver.Solve | simple_solver.py:76-115 | every yielded assignment gives each variable a value and satisfies every clause; an empty clause yields nothing and raises IndexError |
| SimpleSolver.SimpleSATSolver.Enumerate | simple_solver.py:81-115 | the loop yields only full assignments that satisfy every clause |
| SimpleSolver.NoSolutionsWhenUnsatisfiable | simple_solver.py:76-78 | an unsatisfiable clause set yields no solution |

## Left out

- Kinds: versions are `Version(upstream, build)` pairs of naturals under their lexicographic order. The version class the code uses (EnpkgVersion of okonomiyaki) is not part of this model. Turning text into a version is a function parameter, as the code passes `version_factory`.
- Kinds: constraint kinds (`Equal`, `GEQ`, `GT`, `LEQ`, `LT`, `Not`, `Any`, `EnpkgUpstreamMatch`) carry their natural meaning over that order. simplesat/constraints/kinds.py and `MultiConstraints` are not part of this model. A requirement's constraint set is a duplicate-free sequence or a set.
- Requirements.FromConstraints: a name that is not a string becomes `TypeError`, because a requirement's name is a string here. The code would build a requirement whose name is that tuple (simplesat/constraints/requirement.py:84,120-122).
- Requirements: `__str__` (simplesat/constraints/requirement.py:146) is not modelled.
- PackageParser: `\w` is read as ASCII letters, digits and `_`, while blanks (`\s`, `str.split`, `str.strip`) follow Python's Unicode whitespace. Python 3 also counts non-ASCII letters as `\w`.
- PackageParser: `parse_to_package` is not modelled. `Parse` returns the dictionary `parse` builds.
- ConstraintParser: `re.Scanner` is modelled by its rules, with the first rule that matches taking the longest match of its own pattern. Regular expression matching in general is not modelled.
- GroupPrioritizerModel.KeyLess: items with equal keys are ordered by their own value. The code's `sorted(items, key=...)` over a set keeps the set's iteration order among ties, which Python does not fix.
- AssignmentSetModel: the table is modelled as one object. Sharing it between the solver and the policy (aliasing) is not modelled: the solver holds its table by value.
- MiniSat.MiniSATSolver.Search: the branching policy is a pure function `decide` from the table to a literal, standing for `policy.get_next_package_id`. The policy's own state is modelled separately in UndeterminedClausePolicyModel.
- MiniSat.MiniSATSolver.Search: at most `fuel` rounds are run, and `OutOfFuel` says the bound was reached. The code loops until it decides, so termination of the search is not modelled.
- MiniSat.MiniSATSolver.Search: a returned model is shown to assign every variable, but not to satisfy every stored clause and unit. As written it need not: see "Findings", `MiniSat.FromRulesMissesClash`.
- MiniSat.MiniSATSolver.Analyze: the exceptions the code can raise (an empty trail, a missing reason) are `Err` results. They are not shown to be unreachable.
- MiniSat.MiniSATSolver.Analyze: each learned literal's read level is tied to the table of levels. That every learned literal is false under the table is not stated.
- MiniSat: the `Clause` of simplesat/minisat.py stands for the `.clause` module that simplesat/sat/minisat.py imports, which is not part of this model.
- PriorityQueueModel: the heap is a list of entries, and `heappop` takes an entry with the least key from it. The heap layout and `heapq`'s sift steps are not modelled.
- Pools: simplesat/pool.py defines no `id_to_package` or `name_to_packages` method, yet rules_generator.py:449, compute_dependencies.py:29 and undetermined_clause_policy.py:38 and :124 call them. The model assumes these two lookups read the pool's `_id_to_package` map and its `_packages_by_name` index.
- Repositories: a package's name and version are compared as values. Package identity (`is`) is not modelled.
- RulesGenerators.RulesGenerator.AddInstallJobRules: the install job skips providers found in `installed_map`. It looks a package up among integer ids, so it never skips one, and the model takes every provider.
- RulesGenerators.RulesGenerator.AddConstrainJobRules: the constrain job is modelled on its own. The job types of a request are install, remove and update, so no request reaches it.
- RulesGenerators: the text forms of rules are not modelled: `PackageRule._from_string` (simplesat/rules_generator.py:29), `_pretty_literals` (:78) and `to_string` (:86).
- Requests: a job's requirement is a `Requirement` by its type, so the code's `isinstance` check has no failing case here.
- Transactions: a package's dependency strings are a parameter `dependencies`, and each is turned into a requirement by a parameter `legacy` standing for `Requirement.from_legacy_requirement_string`.
- Transactions: `__iter__` (simplesat/transaction.py:35) and `__str__` (:38) are not modelled. Operations are datatype values.
- Graphs: the code's dictionaries are maps, and sets yield their items in no fixed order. The levels of `toposort` are sets.
- DependencySolverModel: `_create_rules` is not modelled as one method. Its parts are modelled in RulesGenerators and Requests, and `SolveResult` starts from the search's answer.
- DependencySolverModel: a solution's package lookup uses the pool's id map, and a dependency's name comes from the same `legacy` parameter.
- Requirements: `from_legacy_requirement_string` (simplesat/requirement.py:72-95) is not modelled; `legacy` is an unconstrained total function. The split into a name and a version, the `EnpkgUpstreamMatch`/`Equal` choice on the build number, the `ValueError` on a blank string and the errors of the version factory are therefore not modelled.
- ComputeDependencies: `compute_dependencies`, `compute_reverse_dependencies` and `_package_ids_from_repositories` are not modelled. They build on `package_lit_dependency_graph`, which is not part of this model. The table of neighbours is a parameter.
- UndeterminedClausePolicyModel: a package id's version is a parameter `versionOf`, standing for `pkg_id_to_version`. The pool's id map gives the (name, version) key.
- UndeterminedClausePolicyModel: the changelog and `new_keys` of the assignment table are parameters of `GetNextPackageId`. Clauses are compared by value, not by identity.
- UndeterminedClausePolicyModel: `_group_packages_by_name` is not modelled. Nothing in the policy calls it.
- UndeterminedClausePolicyModel.Best: when several unassigned ids share the greatest version, any of them may be chosen. `max` returns the first in set-iteration order, which Python does not fix.
- UndeterminedClausePolicyModel.SortByVersion: the sort is shown to order by version and to keep the ids. That ties keep their order (stability) is not stated.
- SimpleSolver: the named literals are those of simplesat/utils.py. The variable list is in whatever order the set of names yields.
- SimpleSolver.SimpleSATSolver.Solve: the generator runs for at most `fuel` passes of its loop and returns what it yielded. That every model is eventually yielded (completeness) is not stated.
- SimpleSolver.Watchlist: `dump` only prints and is not modelled.
- Console output, logging and the command-line scripts are not modelled.

## Findings

| source | as written | input that shows it | evidently intended | confidence | as-written member | corrected member |
|---|---|---|---|---|---|---|
| simplesat/sat/assignment_set.py:49-51 | `__delitem__` removes the key but leaves `_nassigned` unchanged | set key 0 to True, then `del` key 0: `num_assigned` is 1 with no key assigned | deleting an assigned key lowers the count by one, as simplesat/sat/tests/test_assignment_set.py:38-39 expects | not executed | AssignmentSetModel.DelItemAsWrittenMiscounts, AssignmentSetModel.AssignmentSet.DelItem | AssignmentSetModel.DelItemValid |
| simplesat/repository.py:79 | `find_package` (and `find_packages` at line 102) index the `defaultdict`, which inserts an empty list for an unknown name; a later `add_package` then sees the name as known and never inserts it into the sorted names (lines 53-54) | `find_packages(p.name)` on an empty repository, then `add_package(p)`: `p` is found by name and `__len__` counts it, but iteration does not show it | a lookup leaves the repository unchanged, so an added package is listed | not executed | Repositories.FindThenAddHidesPackage, Repositories.Repository.LookUpAsWritten | Repositories.AddListsPackage |
| simplesat/constraints/parser.py:36 | the dependency name pattern `[a-zA-Z_][^\s-]*`, which simplesat/constraints/package_parser.py:14-20 reuses, takes a trailing comma, so a bare name swallows the next entry as its constraint | `depends (nose, pil)`: one dependency `nose,` with the constraint `pil` | bare names separated by commas are separate dependencies, as simplesat/constraints/tests/test_package_parser.py:89-105 expects | not executed | PackageParser.BareNameSwallowsComma, PackageParser.ParseAsWrittenMergesBareNames | PackageParser.BareNamesSeparated, PackageParser.PrettyStringRoundTrip |
| simplesat/constraints/package_parser.py:121 | `package_to_pretty_string` joins the dependency strings with a space, which the parser cannot split again | install requirements `a` constrained by `c` and a bare `b`: the string reads back as one requirement `a` constrained by `c b` | dependencies joined with `, `, so that the pretty string parses back to the package | not executed | PackageParser.SpaceJoinRoundTripFails, PackageParser.PackageToPrettyStringAsWritten | PackageParser.PackageToPrettyString, PackageParser.PrettyStringRoundTrip |
| simplesat/transaction.py:180-182 | `_compute_root_packages` pops every dependency candidate of a root, the root's own id included | one package to install whose dependency it provides itself: no root is left, and the traversal emits no install | a package is not a dependency of itself, so it stays a root unless another package depends on it | not executed | Transactions.SelfDependencyLeavesNoRoot, Transactions.RootsWritten | Transactions.Roots, Transactions.RootsWrittenAgree, Transactions.TraversalComplete |
| simplesat/sat/minisat.py:82-84 | `add_clause` enqueues a unit clause and ignores `enqueue`'s False, so a unit that clashes with an earlier one is dropped | the rules `[x]` and `[-x]`: the status stays undecided although no assignment satisfies both, so the search can return a model violating `[-x]` | a clashing unit makes the problem unsatisfiable (status False) | not executed | MiniSat.FromRulesMissesClash, MiniSat.MiniSATSolver.AddClause | MiniSat.FromRulesChecked, MiniSat.MiniSATSolver.AddClauseChecked |
