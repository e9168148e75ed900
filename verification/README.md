# gitbase: graph walks, squashed joins, indexes and line statistics

gitbase answers SQL over git repositories. This project models, in Dafny, four connected parts of it
and proves what they promise. All of them read one abstract repository: a finite store of commits,
annotated tags, trees and blobs, the references, HEAD, and the files go-git lists for each tree.

* **Walks over the object graph.** `IndexedCommits` is the stack of frames behind ref_commits, which
  records depths and returns commits again when it meets them again; `HistoryOnce`, `HistoryIndices`
  and `HistoryDistances` say when it does, and with which depth; for acyclic histories `FirstPaths`
  and `ServiceOrder` say it of the graph alone. `CommitWalk` and `CommitOrder` are the breadth-first
  walk behind commits. `CommitTrees` is the queue of directories of a commit, and `TreePaths` says
  which trees it returns. Each iterator is a class whose `Next` takes the first of a ghost sequence
  of remaining results off; the theorems are about whole runs.
* **Squashed joins.** The rule in internal/rule/squashjoins.go replaces a join of gitbase tables by
  one chain of iterators. `SquashJoins` states what it builds, `SquashRule` builds it with the loops
  of the original, `FilterConservation`, `PlanTrace`, `SquashSuccess`, `ChainChoices` and
  `NarrowPlans` say what is true of every plan. `Relations`, `Layout` and `SquashMeaning` prove for
  any tables that a chain of exact generators, the joins around it, the permuted columns and the
  last filter return the filtered cross product of the plain tables. `Tables`, `JoinFacts`,
  `ProductRows`, `ChainStages`, `StageExactness` and `ExactChains` prove the generators exact, using
  the theorems about the walks, and `MainTrees` does so for the main trees of commits;
  `SquashedQueries`, `RefHistoryQueries`, `HashJoins`, `NarrowedJoins`, `DirectReferences`,
  `RunCounts` and `QueryOrder` draw the conclusion. `ChainEvents`, `ChainRuns`, `ChainKnowledge`,
  `IteratorPlans`, `ChainIterators` and `SquashedRuns` tie the chained iterator objects to it, down
  to a method that takes a query and returns its rows. `RowContents`, `TableContents`,
  `EventContents` and `QueryContents` say, by column name and from the git objects, what the rows
  hold, and `GitErrors` when errors are reported. `TableIterators`, `CommitSelection`, `FilesTable`
  and `Selectors` are the iterators of the plain tables and the filters they apply themselves.
* **Indexes.** `IndexCodecs`, `IndexKeys`, `KeyLayouts` and `IndexBuffers` are the keys as bytes,
  `Packfiles` finds and decodes objects, `TreeEntries` reads an index through a cache of one tree,
  and `TreeCache` says when the answers are right.
* **Line statistics.** `LineStats` and `FileStats` subtract counters on the heap in place and add
  them up by kind; `LineKinds` says which lines are counted under which kind.

Where the code does not keep a promise, the exact condition under which it does is proved:
`CommitsAreUniqueIff` (the documentation of the commits table, docs/using-gitbase/schema.md:70, says
that commits are not duplicated; an annotated tag of a commit that is reached otherwise duplicates
it), `HistoryJoinIsExactIff`, `HeadIsRefHashIff`, `HashJoinIsExactIff`, `CommitJoinIsExactIff`,
`HashQueryIsPreservedIff`, `NarrowedQueryIsPreservedIff`, `TreeJoinIsExactIff`, `SquashSucceedsIff`,
`ReturnedOnceIff`, `LeastIndexIff`, `AcyclicReturnedOnceIff`, `AcyclicLeastIndexIff`,
`CommitFilesPanicIff`, `LookupIsExactIff`, `SelectorIsExactIff`, `OffsetsAreExactIff`,
`AnswersAreExactIff`, `NamesAreExactIff`, `TextValuesAreExactIff`, `TreeEntryRoundTripsIff` and
`GrowthIsCountedIff`. `FailingInstances`, with `SharedAncestorComesTwice`, `SharedAncestorFails`,
`RejectedTreeIsReused`, `StaleOffsetIsReused` and `MixUpLosesTable`, has small inputs on which the
conditions fail.

Modelling choices. Filters are total expressions without side effects over values; a row is an
immutable sequence. Hashes are abstract, so an object's name and content go together. `Hash` values
in rows stand for their hexadecimal strings. A tag that leads to itself, which git cannot store,
resolves to no commit. A comparison of `Expr` values is never needed, because any function may occur
in one. A map that the code iterates over is iterated in arbitrary order.

## Model

| member | source | states |
|---|---|---|
| IndexedCommits.SeenPushesNothing | ref_commits.go:410-440 | the invariant of the stack: a commit met again pushes nothing, because each of its unseen parents already waits in a frame strictly above it |
| IndexedCommits.StepDecreases | ref_commits.go:401-445 | every turn of the loop either marks a new hash or shortens what waits on the stack, so a run ends on any store, cyclic ones included |
| IndexedCommits.HistoryIsBounded | ref_commits.go:401-445 | a drained iterator returns at most one result more than the reachable commits have parent links |
| IndexedCommits.HistoryIsExact | ref_commits.go:380-445 | every result is a commit with a parent path of exactly its index from the start; every reachable commit is returned; an error is returned exactly if errors are not skipped and a reachable hash is missing |
| IndexedCommits.HistoryStartsOnce | ref_commits.go:380-445 | the start commit comes first, with index 0, and neither it nor index 0 comes again |
| IndexedCommits.SkippingDropsErrors | ref_commits.go:421-429 | for every run, skipping git errors takes the errors out of its results and changes nothing else |
| IndexedCommits.SharedAncestorComesTwice | ref_commits.go:410-440 | a commit that is a parent of the start and of its first parent is returned twice, first with index 2 and then with index 1 |
| IndexedCommits.FirstParentComesNext | ref_commits.go:430-441 | after the start comes the first of the parents that the commit lists, with index 1 |
| HistoryOnce.ServedOnceIff | ref_commits.go:401-445 | on any store, the walk serves no commit twice exactly if, whenever it serves a hash, no commit among its parents still to be served can be reached from an earlier parent through hashes not served yet |
| HistoryOnce.AheadIsServedTwice | ref_commits.go:410-440 | a commit that waits on the stack behind a hash that leads to it through hashes not served yet is served twice |
| HistoryOnce.WaitsOnce | ref_commits.go:401-445 | as long as that was so of every hash served, no commit waits in two places of the stack |
| HistoryOnce.ReturnedOnceIff | ref_commits.go:401-445 | so every commit is returned at most once exactly under that condition, whether or not errors are skipped |
| HistoryOnce.CommitsComeOnceIff | ref_commits.go:401-445 | the same condition read off the results: at every result, no commit among its parents yet to come can be reached from an earlier parent through hashes yet to come |
| HistoryIndices.IndexFollowsChild | ref_commits.go:401-445 | when every commit is returned once, the index of each but the start is one more than that of the first result it is a parent of |
| HistoryIndices.DivergingHistory | ref_commits.go:401-445 | if no reachable commit has a commit among its parents that equals or is reachable from an earlier parent, each reachable commit is returned at exactly one place, with that index |
| HistoryIndices.LinearHistory | ref_commits.go:401-445 | without merges and with errors skipped, the n-th result has index n, its distance from the start, and is the only parent of the result before it |
| HistoryDistances.LeastIndexIff | ref_commits.go:410-440 | on any store, every result has its distance from the start as its index exactly if, whenever the walk serves a hash, its parents still to be served that are commits lie one link further from the start |
| HistoryDistances.GradedHistory | ref_commits.go:410-440 | that is so if every parent link from a reachable commit to a commit leads one link further from the start |
| HistoryDistances.SharedAncestorFails | ref_commits.go:410-440 | a commit that is a parent of the start and of its first parent fails both this condition and that of commits that come once |
| FirstPaths.FirstPathIsFirst | ref_commits.go:410-440 | on an acyclic history, the path that takes the first parent that still reaches a hash comes before all other paths to it in the order of a dictionary |
| ServiceOrder.FirstVisitsAreInOrder | ref_commits.go:401-445 | everything reachable is served, for the first time in the order of these first paths |
| ServiceOrder.AcyclicReturnedOnceIff | ref_commits.go:401-445 | so on an acyclic history every commit is returned once exactly if, of the parents of each reachable commit, a commit that an earlier parent reaches has a first path before that of the commit itself |
| ServiceOrder.AcyclicLeastIndexIff | ref_commits.go:401-445 | and every result has its distance as its index exactly if each parent of a reachable commit that is a commit lies one link further or has a first path before that of the commit |
| IndexedCommits.IndexedCommitIter.constructor | ref_commits.go:380-394 | a new iterator has the whole history of its start commit before it |
| IndexedCommits.IndexedCommitIter.Next | ref_commits.go:401-445 | each call takes the first of the remaining results off, and the end comes when none remain |
| IndexedCommits.IndexedCommitIter.Turn | ref_commits.go:402-445 | one pass through the loop marks, consumes and pushes as the specification's step does, and returns the commit, an error or nothing |
| IndexedCommits.IndexedCommitIter.PushParents | ref_commits.go:430-441 | the unseen parents become a frame of their own, in order, unless there are none |
| CommitWalk.CommitsAreExact | commits.go:243-291 | a whole run returns exactly the commits that are a peeled reference hash or reachable from one |
| CommitWalk.ErrorsAreExact | commits.go:243-291 | a run has an error exactly if errors are not skipped and a reference leads to a missing object or a returned commit has a missing parent |
| CommitWalk.CommitsReturnedPerName | commits.go:253-289 | a commit is returned once for its own hash, if that is a reference or the parent of a returned commit, and once for each annotated tag hash that leads to it |
| CommitWalk.CommitsAreUniqueIff | commits.go:243-291 | no commit is returned twice, as the documentation of the commits table promises, exactly if no commit has two names |
| CommitWalk.VisitsDistinct | commits.go:253-275 | no hash is marked twice |
| CommitWalk.CommitIter.constructor | commits.go:201-218 | a new iterator has all commits of the repository before it |
| CommitWalk.CommitIter.LoadNextRef | commits.go:220-241 | symbolic references are passed over and the next one that holds a hash becomes current |
| CommitWalk.CommitIter.Next | commits.go:243-291 | each call takes the first of the remaining results off |
| CommitWalk.CommitIter.TakeRef | commits.go:248-262 | the hash of a reference is marked and resolved; a tag is marked under its own hash only |
| CommitWalk.CommitIter.TakeParent | commits.go:263-289 | the oldest hash of the queue is marked unless it was, and its parents join the queue |
| CommitOrder.QueueIsServedNearestFirst | commits.go:263-289 | the queue is served in order of shortest parent path, although hashes are marked only when they leave it |
| CommitOrder.FirstRefNearestFirst | commits.go:243-291 | a run marks the first reference that holds a hash and then exactly the other ancestors of its commit, nearest first; a tag is followed on a history without cycles |
| CommitOrder.FirstResultsNearestFirst | commits.go:243-291 | its results open with the commit of that reference and then its other ancestors that are commits, all of them and nothing else but errors, nearest first |
| Objects.ResolveFindsCommit | squash_iterator.go:3494-3512 | resolving a hash yields only commits; a commit resolves to itself |
| Objects.TagResolvesAsTarget | squash_iterator.go:3494-3512 | an annotated tag resolves as what it points to, tags of tags included, unless it leads to itself |
| Objects.ResolveIsExact | squash_iterator.go:3494-3512 | a hash resolves to exactly the commit that a chain of tags from it ends at, and is missing exactly if such a chain ends at an object that is not there |
| CommitTrees.TreesAreUnfolded | squash_iterator.go:2184-2257 | on an acyclic store the iterator returns, as a multiset, the recursive unfolding of the root; TreePaths says by paths what that is |
| CommitTrees.TurnShrinks | squash_iterator.go:2208-2257 | the total unfolded size of what is pending shrinks with every turn |
| CommitTrees.CommitTreeIter.constructor | squash_iterator.go:2184-2206 | a new iterator has the whole unfolding of its root before it |
| CommitTrees.CommitTreeIter.Next | squash_iterator.go:2208-2257 | each call takes the next tree of the run off, and the end comes when none is left; which trees a run returns is said in TreePaths |
| TreePaths.TreesComePerPath | squash_iterator.go:2208-2257 | a run returns a tree exactly as often as there are paths from the root to it over entries of mode 40000 (octal) that name stored trees, none of them to be left out |
| TreePaths.ErrorsComePerPath | squash_iterator.go:2229-2243 | and an error exactly once for each such path that ends at an entry of that mode whose tree is not stored, or none if errors are skipped |
| TreePaths.TreesOfRootAreReturned | squash_iterator.go:2208-2257 | the root is returned and so is the stored tree of each directory entry in it |
| Expressions.FixIsFaithful | internal/rule/squashjoins.go:1590-1614 | a filter with rewritten positions evaluates on a row to what the filter means by table and column name; rewriting fails exactly on a column the schema does not have |
| Expressions.MovedFilterIsFaithful | internal/rule/squashjoins.go:1631-1659 | a filter moved to another table says of its row what the filter says of any row that agrees on the columns mentioned |
| Expressions.JoinAndMeans | internal/rule/squashjoins.go:1280-1308 | the joined conjunction is true exactly when all its filters are |
| Expressions.CompileIsFaithful | internal/rule/squashjoins.go:1280-1308 | a stage filter accepts exactly the rows on which every filter of the stage is true by name |
| SquashRule.FiltersMeanCondition | internal/rule/squashjoins.go:1164-1170 | taking a condition apart at its ANDs gives filters that are all true exactly when it is |
| SquashRule.FiltersForTables | internal/rule/squashjoins.go:1172-1196 | splits the filters into those over the tables alone and the others, both in order |
| SquashRule.FiltersForColumns | internal/rule/squashjoins.go:1198-1226 | of the filters over one table, takes those over the given columns; everything else remains |
| SquashRule.RemoveRedundantFilters | internal/rule/squashjoins.go:1312-1320 | removes exactly the equalities that chaining the two tables makes true |
| SquashRule.FiltersForTable | internal/rule/squashjoins.go:1295-1308 | compiles the conjunction of the filters of one table and returns the rest |
| SquashRule.FiltersForJoin | internal/rule/squashjoins.go:1280-1293 | compiles the conjunction of the filters of two tables without the redundant ones and returns the rest |
| SquashRule.HasCompoundFilter | internal/rule/squashjoins.go:1390-1410 | commit_files and files are chained only on all three of their columns |
| SquashRule.HasChainableJoinCondition | internal/rule/squashjoins.go:1354-1366 | two tables are chained if the condition has one of their redundant equalities, or the compound of them |
| SquashRule.HashAloneIsChained | internal/rule/squashjoins.go:1354-1366 | references are chained with ref_commits, over head commits only, on the hash of the commit alone |
| SquashRule.RefHashIsChained | internal/rule/squashjoins.go:1354-1366 | commits are chained on the hash of the reference, which is also taken to ask for head commits only |
| SquashRule.OrderedTableNames | internal/rule/squashjoins.go:1006-1022 | lists the joined tables in the order of the hierarchy |
| SquashRule.MapSchema | internal/rule/squashjoins.go:969-990 | computes for each original column its first position in the actual schema, and no mapping if all columns are where they were |
| SquashRule.TakeTable | internal/rule/squashjoins.go:269-276 | a table is chained if the iterator at hand allows it; otherwise it takes all filters over the tables so far to an ordinary join |
| SquashRule.ChainTable | internal/rule/squashjoins.go:397-446 | a chained table takes the filters over its link, less the redundant ones, and for ref_commits alone moves what it can to the references |
| SquashRule.JoinAround | internal/rule/squashjoins.go:891-916 | each table that was not chained is joined around the node so far |
| SquashRule.BuildSquashedTable | internal/rule/squashjoins.go:246-932 | the loop over the tables builds the node of the specification, or fails as it does; NarrowPlans and ChainChoices say what that chooses |
| FilterConservation.MatchingSplits | internal/rule/squashjoins.go:1172-1196 | no filter is lost or duplicated by the split, and each lands on the side its tables say |
| FilterConservation.ColumnsSplit | internal/rule/squashjoins.go:1198-1226 | the same for the split by columns: what is taken is over the columns alone, and what remains is not |
| FilterConservation.RedundantSplits | internal/rule/squashjoins.go:1312-1320 | the same for the redundant filters |
| FilterConservation.FiltersAreConserved | internal/rule/squashjoins.go:246-932 | for any tables and filters, every filter ends, as often as it was given, in exactly one place: moved, run by a stage, dropped as redundant, on an ordinary join, or in the final filter |
| PlanTrace.SquashTraces | internal/rule/squashjoins.go:283-860 | for any query, each stage follows the table it reads, takes filters of the query only, drops only equalities of its own link, and uses head commits exactly if the query has the filter for it |
| NarrowPlans.StagesAreNarrowAsAsked | internal/rule/squashjoins.go:1322-1349 | whatever the tables and filters, ref_commits are chained to refs over head commits exactly if some filter equates the hash of refs with that of commits or of ref_commits, commit_trees to commits over main trees exactly if some filter equates their tree hashes, and no other stage is narrowed |
| ChainChoices.ChainedIff | internal/rule/squashjoins.go:283-860 | each table is chained after exactly these iterators, adds its columns and offers its iterator, but for commit_trees after repositories |
| ChainChoices.ChainedOnCommonColumns | internal/rule/squashjoins.go:1432-1560 | each chained pair of tables has columns to be joined on, and both tables have them |
| ChainChoices.JoinColumnIff | internal/rule/squashjoins.go:1432-1560 | an equality of a column is redundant between exactly these pairs of tables |
| SquashSuccess.SquashSucceedsIff | internal/rule/squashjoins.go:283-932 | the rule builds a node with all the tables of the join exactly if some table can open a chain and commit_trees does not come right after repositories |
| SquashSuccess.MixUpLosesTable | internal/rule/squashjoins.go:514-526 | repositories followed by commit_trees chains tree_entries, and commit_trees is in no node |
| Relations.StageIsLoop | squash_iterator.go:1253-1278 | a stage over exact generators is a filtered inner loop over the plain table |
| Relations.ProductFromLeft | internal/rule/squashjoins.go:891-916 | joining one more table from the left puts it in the outermost loop |
| Layout.MappingArranges | internal/rule/squashjoins.go:969-990 | if the original columns are a permutation of the actual ones, the mapping, or its absence, returns every row in the original order |
| Layout.ProjectionArranges | internal/rule/squashjoins.go:938-967 | the projection does the same and never misses a column |
| Layout.FilterArranged | internal/rule/squashjoins.go:923-930 | the last filter, compiled against the original schema, keeps the rows the filters keep by name |
| SquashMeaning.ChainIsProduct | internal/rule/squashjoins.go:283-860 | a chain of exact generators returns the cross product of its tables filtered by what the generators and stages check |
| SquashMeaning.JoinsAreProduct | internal/rule/squashjoins.go:891-916 | ordinary joins around a chain extend the filtered cross product |
| SquashMeaning.SquashPreservesMeaning | internal/rule/squashjoins.go:246-932 | for any tables, if the generators are exact and imply what was dropped, the node returns the cross product of the plain tables filtered by all filters of the query, in the original column order |
| QueryOrder.ProductPermuted | internal/rule/squashjoins.go:1006-1022 | the cross products of the same tables in two orders have the same rows, each as often, once the columns are put back |
| QueryOrder.QueryPermuted | internal/rule/squashjoins.go:1006-1022 | so a query has the same rows, each as often, in the order of the plan and in the order of its join |
| QueryOrder.PreservedAsWritten | internal/rule/squashjoins.go:246-932 | the rows of a node that returns its plan's filtered product are, as a multiset, those of the join as it was written |
| JoinFacts.RefMeetsItsHistory | ref_commits.go:266-355 | joined by name, a reference meets exactly the rows of its own history |
| JoinFacts.HistoryJoinIsExactIff | ref_commits.go:266-355 | for all references that holds exactly if no two references share a name, unless neither leads to a commit |
| JoinFacts.HeadIsIndexZero | squash_iterator.go:1068-1110 | what the iterator over head commits returns is the slice of the full history with index 0 |
| JoinFacts.HeadIsRefHashIff | squash_iterator.go:1068-1110 | it is also the slice with the hash of the reference exactly if that hash, where it leads to a commit, is the commit and no tag |
| JoinFacts.HashJoinIsExactIff | internal/rule/squashjoins.go:397-413 | chained on the hash alone, a reference to a commit gets what the join would exactly if no other reference lists that commit |
| JoinFacts.CommitListCounts | commits.go:243-291 | the plain table lists a commit as often as it has names |
| JoinFacts.CommitJoinIsExactIff | squash_iterator.go:1253-1278 | joined by hash, a commit meets its one row exactly if it has one name |
| JoinFacts.CommitMeetsItsFiles | squash_iterator.go:3146-3214 | joined by hash, a commit listed once meets exactly its own files |
| JoinFacts.TreeMeetsItsFiles | files.go:205-290 | though commits share trees, the table has the files of each tree once |
| JoinFacts.FileMeetsItsRow | squash_iterator.go:3374-3402 | joined by tree, path and hash, a file of a listed commit meets its one row |
| StageExactness.RefCommitsStage | squash_iterator.go:961-1017 | refs to ref_commits, full or over head commits, appends what the join on name appends, restricted to index 0 for head commits |
| StageExactness.CommitsOfRefCommitsStage | squash_iterator.go:1253-1278 | ref_commits to commits appends what the join on hash appends |
| StageExactness.CommitsOfRefsStage | squash_iterator.go:1649-1700 | refs to commits does too, for references to commits |
| StageExactness.FilesOfCommitsStage | squash_iterator.go:3146-3214 | commits or ref_commits to commit_files appends what the join on hash appends |
| StageExactness.FilesOfRefsStage | internal/rule/squashjoins.go:782-796 | refs to commit_files does too, through commits without columns |
| StageExactness.FilesStage | squash_iterator.go:3374-3402 | commit_files to files appends what the join on tree, path and hash appends |
| MainTrees.MainTreeStageIsExact | squash_iterator.go:2124-2163 | commits to commit_trees over main trees appends what the join on both hashes appends |
| MainTrees.DroppedTreeFilterIsTrue | internal/rule/squashjoins.go:558-574 | whatever the query, each equality that the rule drops between commits and commit_trees is true of the rows that the iterator it picks appends |
| MainTrees.TreeJoinIsExactIff | internal/rule/squashjoins.go:558-574 | asked for the hash of the tree alone, a commit gets what the join would exactly if no other commit of the table leads to that tree by a path of directories |
| MainTrees.CommitMainTreeIter.constructor | squash_iterator.go:2082-2121 | a new iterator has the trees of all its commits before it |
| MainTrees.CommitMainTreeIter.Advance | squash_iterator.go:2124-2163 | moves to the next commit whose tree is stored and whose row passes; a missing tree is an error unless errors are skipped |
| MainTrees.MainTreesRun | squash_iterator.go:2124-2163 | a whole run of it is the stage over main trees |
| ExactChains.EarlyFilteringIsSound | internal/rule/squashjoins.go:414-446 | filtering the references with the moved filters and then listing their histories gives, row for row, the plain ref_commits filtered by the original filters |
| ExactChains.ChainIsExact | internal/rule/squashjoins.go:283-860 | every stage of a plan built by the rule is exact when the query asks for the equalities of its links |
| SquashedQueries.IndexZeroIff | squash_iterator.go:1068-1110 | on a row that joins a reference to its history by name, the index is 0 exactly on the commit the reference leads to |
| SquashedQueries.DroppedIsTrue | internal/rule/squashjoins.go:1312-1320 | every filter dropped as redundant is true on the rows the chain makes |
| SquashedQueries.SquashedQueryIsPlainQuery | internal/rule/squashjoins.go:246-932 | a squashed query over repositories, refs, ref_commits, commits, commit_files and files, with whatever other tables joined around it, returns exactly the rows of the plain tables on which all filters hold, for every pure filter list; the equalities of each link may be asked for one by one or follow from several filters, and refs and ref_commits may be joined on the name or, where no other reference lists the commit of one, on the hash alone |
| RefHistoryQueries.ReadyQueriesArePreserved | internal/rule/squashjoins.go:246-932 | the same from conditions on tables, filters and repository alone; the node is always built |
| RefHistoryQueries.HistoryQueriesArePreserved | internal/rule/squashjoins.go:397-491 | for refs, ref_commits and commits in any order it is enough that the filters entail equal names, or equal hashes where no other reference lists the commit of one, and equal hashes of ref_commits and commits, with names apart, no commit with two names, and references to commits only if the query compares their hash with ref_commits |
| RefHistoryQueries.NaturalJoinsArePreserved | internal/rule/squashjoins.go:397-491 | natural joins of the three, which compare ref_commits and commits only through refs, are among them |
| RefHistoryQueries.FileQueriesArePreserved | internal/rule/squashjoins.go:739-860 | the same for the five tables down to files |
| HashJoins.HashQueryIsPreservedIff | internal/rule/squashjoins.go:397-413 | refs joined with ref_commits on the hash alone: the node returns the rows of the plain join, in whatever order, exactly if references hold hashes of commits and no other reference lists the commit of one |
| HashJoins.RunsAgreeIff | squash_iterator.go:1068-1110 | the rows made for head commits are those of the join on the hash under the same condition, repeated references included, and otherwise differ even as multisets |
| NarrowedJoins.NarrowedQueryIsPreservedIff | internal/rule/squashjoins.go:397-491 | refs joined with ref_commits on the name and with commits on the hash of the reference: the node returns the rows of the plain join, in whatever order, exactly if every reference to a commit has a history of one entry, a name of its own among those that lead to commits, and a commit listed once |
| NarrowedJoins.ChainOfThree | squash_iterator.go:1253-1278 | because the chain makes one row for each reference that leads to a commit, that of its head |
| DirectReferences.DirectIsEnough | commits.go:243-291 | if references that lead to commits hold their hashes, under distinct names, no commit is listed twice and no history is shared |
| DirectReferences.DirectHistoryQueriesArePreserved | internal/rule/squashjoins.go:397-491 | in such a repository the two equalities are all a query over refs, ref_commits and commits has to ask for, whether the plan reads head commits or full histories |
| DirectReferences.ConditionsAreMet | internal/rule/squashjoins.go:397-491 | the conditions of these theorems can be met |
| FailingInstances.TwoBranchesFailHashJoin | internal/rule/squashjoins.go:397-413 | two branches on one commit: the join on the hash gives either branch another row than the chain makes |
| FailingInstances.TwoBranchesFailHashQuery | internal/rule/squashjoins.go:397-413 | so the squashed query on the hash alone does not return the plain rows there |
| FailingInstances.TwoCommitsFailNarrowedQuery | internal/rule/squashjoins.go:397-491 | one branch with two commits: joined on the name and with commits on the hash of the reference, the older entry is lost |
| FailingInstances.TaggedIsListedTwice | commits.go:243-291 | a branch and an annotated tag on one commit: the commit is returned twice |
| FailingInstances.TaggedFailsCommitJoin | squash_iterator.go:1253-1278 | so joined on its hash it has not the one row the chain makes |
| FailingInstances.TaggedFailsHeadHash | squash_iterator.go:1068-1110 | and the history of the tag has no row with the hash of the tag, for which the chain makes one |
| FailingInstances.DetachedFailsHistoryJoin | ref_commits.go:266-355 | a detached HEAD that is listed as a reference as well: joined by name, it has more rows than its history |
| FailingInstances.SameTreeFailsTreeJoin | internal/rule/squashjoins.go:558-574 | two commits with one tree: joined on the hash of the tree alone, the newer commit meets the row of the older one too, which the iterator leaves out |
| FailingInstances.UnreachedFailsLookup | commits.go:350-368 | a commit that no reference reaches is found by its hash |
| FailingInstances.TwoPacksFailOffsets | tree_entries.go:467-470 | trees at one offset of two packfiles: the key of the second is answered wrongly |
| FailingInstances.TwoValuesFailSelectors | filters.go:45-67 | a column asked to equal two values is not restricted at all |
| FailingInstances.OtherCaseFailsNames | references.go:311-313 | a reference whose name differs from the one asked for in case only is selected |
| RefHistoryQueries.PlainDbIsPlain | references.go:268-318 | the tables these theorems speak of exist for every repository |
| ChainRuns.RefCommitsRun | squash_iterator.go:961-1017 | a whole run of the full iterator is its stage over the rows of the references |
| ChainRuns.HeadsRun | squash_iterator.go:1068-1110 | the same for head commits |
| ChainRuns.RefHeadCommitsRun | squash_iterator.go:1649-1700 | the same for refs to commits |
| ChainRuns.CommitsRun | squash_iterator.go:1253-1278 | the same for ref_commits to commits |
| ChainRuns.CommitFilesRun | squash_iterator.go:3146-3214 | the same for commits to commit_files |
| ChainRuns.FilesRun | squash_iterator.go:3374-3402 | the same for commit_files to files, if a tree lists no path twice |
| ChainKnowledge.RefCommitsKnow | squash_iterator.go:961-1017 | the commit an iterator is at is the one in its row, which the next iterator relies on |
| IteratorPlans.IteratorsRunPlan | squash_iterator.go:448-502 | the chained iterators of any plan return, in order, the rows its stages are defined to make |
| IteratorPlans.IteratorsReturnPlainRows | internal/rule/squashjoins.go:246-932 | so running the iterators of a squashed query returns the filtered cross product of the plain tables |
| ChainIterators.RefIter.constructor | squash_iterator.go:409-438 | HEAD comes first, then the references of the repository |
| ChainIterators.RefIter.Advance | squash_iterator.go:448-502 | moves to the next reference that holds a hash and passes the filter |
| ChainIterators.RefRefCommitsIter.constructor | squash_iterator.go:947-957 | a new iterator has the histories of all its references before it |
| ChainIterators.RefRefCommitsIter.Advance | squash_iterator.go:961-1017 | moves to the next commit of the history at hand, or on to the next reference; what is no commit is skipped, a missing object is an error unless errors are skipped |
| ChainIterators.RefHeadRefCommitsIter.Advance | squash_iterator.go:1068-1110 | moves to the next reference that leads to a commit, with index 0 |
| ChainIterators.RefHeadCommitsIter.Advance | squash_iterator.go:1649-1700 | the same with the columns of commits, or none |
| ChainIterators.RefCommitCommitsIter.Advance | squash_iterator.go:1253-1278 | appends, to each row that comes in, the eleven columns of the commit at hand, read off the git object under their names |
| ChainIterators.CommitsIter.Advance | squash_iterator.go:889-901 | any iterator over commits moves past the first of its remaining results |
| ChainIterators.CommitFilesIter.Advance | squash_iterator.go:3146-3214 | moves to the next file of the commit at hand, or on to the next commit |
| ChainIterators.CommitFileFilesIter.Advance | squash_iterator.go:3374-3402 | appends the columns of files to each row that comes in |
| EventContents.RefsShow | references.go:336-344 | each row of the iterator over references ends with the repository, name and hash of its reference |
| EventContents.RefCommitsShow | squash_iterator.go:999-1005 | each row of the full iterator ends with the name of the reference it came from and the commit it is at |
| EventContents.HeadsShow | squash_iterator.go:1095-1100 | the same for head commits, with index 0 |
| EventContents.HeadCommitsShow | commits.go:309-332 | rows of the iterator from refs to commits end with the eleven columns of the commit it is at |
| EventContents.CommitsShow | commits.go:309-332 | and so do those of the iterator from ref_commits to commits |
| EventContents.CommitFilesShow | commit_files.go:308-316 | each row of the iterator over commit files ends with its commit, the path and hash of its file, and the tree of the commit |
| EventContents.FilesShow | files.go:302-323 | each row of the iterator over files ends with path, hash, tree, mode, content if it is read, and size of its file |
| TableContents.RefListHas | references.go:268-318 | HEAD comes first and every reference that holds a hash is listed as often as it is there, no other ones |
| TableContents.RefListAt | references.go:268-318 | each after HEAD and the references that come before it |
| TableContents.RefsAre | references.go:336-344 | row k of refs holds the repository, name and hash of reference k, and there are no more rows |
| TableContents.RefCommitsAre | ref_commits.go:318-355 | after the rows of the references before it, a reference has a row with each commit and index that the walk from its commit returns, in order, and there are no more rows |
| TableContents.CommitsAre | commits.go:309-332 | row k of commits holds, under the names of all eleven columns, the fields of the k-th commit of the walk, and there are no more rows |
| TableContents.CommitFilesAre | commit_files.go:308-316 | after the rows of the commits before it, each commit of the walk has a row for each file of its tree, in order, and there are no more rows |
| TableContents.FilesAre | files.go:302-323 | the rows of a tree in files are its files in order, with mode, content if it is read, and size, if a commit of the walk has that tree, and none otherwise |
| QueryContents.JoinedRowsAreDescribed | internal/rule/squashjoins.go:246-932 | each row of a join of plain tables in any order and under any filters describes, under the names of its columns, a reference, an entry of a history, a commit and files of the repository |
| QueryContents.SquashedRowsAreDescribed | internal/rule/squashjoins.go:246-932 | and so does each row that the node returns for a preserved query |
| GitErrors.RefCommitsFailIff | squash_iterator.go:961-1017 | the histories of references report an error exactly if errors are not skipped and a reference leads to a missing object or its commit to a parent that is no commit |
| GitErrors.HeadsFailIff | squash_iterator.go:1068-1110 | head commits report an error exactly if errors are not skipped and a reference leads to a missing object |
| GitErrors.CommitsFailIff | squash_iterator.go:1253-1278 | the iterator from ref_commits to commits passes errors on and adds none |
| GitErrors.CommitFilesFailIff | squash_iterator.go:3146-3214 | files of commits report an error exactly if errors are not skipped and the commits report one or a commit has no files |
| GitErrors.FilesFailIff | squash_iterator.go:3374-3402 | the iterator to files passes errors on and adds none |
| GitErrors.MainTreesFailIff | squash_iterator.go:2124-2163 | main trees report an error exactly if the commits do, or errors are not skipped and the tree of a commit is not stored |
| GitErrors.RefCommitsKeepRows | squash_iterator.go:961-1017 | skipping errors loses no row of the histories |
| GitErrors.HeadsKeepRows | squash_iterator.go:1068-1110 | nor of the head commits |
| GitErrors.CommitFilesKeepRows | squash_iterator.go:3146-3214 | nor of the files of commits |
| GitErrors.CommitFilesTableFailsIff | commit_files.go:242-306 | the table of commit files reports an error exactly if errors are not skipped and the walk over commits does before it comes to a commit whose files cannot be listed |
| GitErrors.FilesTableFailsIff | files.go:229-290 | the table of files reports an error exactly if errors are not skipped and the walk does or a wanted tree not visited before cannot be listed |
| SquashedRuns.Drain | squash.go:152-165 | draining returns the rows of all remaining results, or stops at the first error |
| SquashedRuns.BuildHistoryChain | internal/rule/squashjoins.go:397-491 | builds the iterators of the plan, over head commits or full histories as the plan says |
| SquashedRuns.RunHistoryQuery | internal/rule/squashjoins.go:246-932 | from the query to the rows: rule, iterators, columns and last filter together return the filtered cross product of the plain tables, and in each row the columns of refs, ref_commits and commits hold, under their names, a reference, an entry of the history of one, and a commit with all its fields |
| SquashedRuns.SchemaMapperIter.Next | squash.go:171-187 | returns each row of its child with the columns put back |
| TableIterators.RefRowIter.Next | references.go:268-318 | returns the rows of the selected references one by one, HEAD first |
| TableIterators.UnselectedRefsAreRows | references.go:268-318 | without selectors these are the rows of the plain table |
| TableIterators.SelectedRefsAreRows | references.go:281-318 | with selectors they are the rows of the plain table whose commit_hash is one of the hashes and whose ref_name, in lower case, is one of the names, in order |
| TableIterators.NamesAreExactIff | references.go:307-313 | selecting names in lower case selects what a filter on the name does exactly if no reference has one of the names up to case only |
| TableIterators.RefCommitsRowIter.Next | ref_commits.go:266-355 | returns the histories of the selected references, one result at a time |
| TableIterators.RefCommitResultsAreRows | ref_commits.go:266-355 | with errors skipped, its rows are the histories of the selected references |
| TableIterators.UnselectedRefCommitsAreRows | ref_commits.go:266-355 | without selectors these are the rows of the plain table |
| TableIterators.CommitFilesRowIter.Next | commit_files.go:200-306 | returns the files of all commits, or of those with the selected hashes, at the selected paths, one by one; after a crash nothing |
| TableIterators.CommitFilesAreRows | commit_files.go:242-306 | with errors skipped, its rows are those of the plain table at the selected paths |
| TableIterators.SelectedFilesAreRows | commit_files.go:200-306 | commits looked up by their hashes have the rows of their files |
| CommitSelection.CommitsByHashIter.Next | commits.go:350-368 | returns the commits with the given hashes one by one and passes over everything else |
| CommitSelection.SelectedCommitsIter.Next | commit_files.go:200-213 | reads from the lookup if hashes are selected and from the walk otherwise |
| CommitSelection.LookupIsExactIff | commits.go:350-368 | looked up commits are those a filter on the hash keeps, each as often, exactly if each of the hashes that is a commit is asked for as often as the table lists it |
| TableIterators.CommitFilesPanicIff | commit_files.go:268-281 | it crashes exactly if errors are not skipped and the files of a returned commit cannot be listed |
| FilesTable.FilesRowIter.Next | files.go:229-290 | returns the wanted files of each tree visited for the first time; a rejected tree is not marked |
| FilesTable.PushdownIsExact | files.go:205-290 | restricting trees, paths and blobs in the iterator returns, in order, the rows of the unrestricted iterator that satisfy the restriction, although different trees are marked as seen |
| FilesTable.SelectionIsExact | filters.go:193-271 | reading the table with the selectors taken out of the filters and checking the rest afterwards gives the rows on which all filters hold, when the selectors of each column are equal and not empty |
| Selectors.HandledMeans | filters.go:72-156 | a filter that is taken as a selector says that the column has one of its values |
| Selectors.HandledIff | filters.go:72-156 | a filter is taken as a selector of a column exactly if it compares that column of the table with a literal, on either side, or looks it up among literals |
| Selectors.ClassifyIsExact | filters.go:193-231 | splitting filters into selectors and conditions changes no conjunction |
| Selectors.ClassifyPlaces | filters.go:193-231 | each filter lands with the selectors of its column or among the conditions, and nothing else does |
| Selectors.ClassifyFilters | filters.go:193-231 | the loop collects the selectors of each column and the other filters in order |
| Selectors.IsValid | filters.go:30-41 | the selectors of a column are valid exactly if they are all equal |
| Selectors.TextValuesAreExactIff | filters.go:45-67 | the values restrict a column as its selectors do exactly if there are none or they are all equal and not empty; contradictory ones restrict nothing |
| FileStats.Stats.Add | internal/commitstats/file.go:225-232 | counts one more occurrence of a line and keeps its last kind |
| FileStats.Stats.SubLine | internal/commitstats/file.go:235-242 | subtracts one counter, or takes over the other file's counter negated |
| FileStats.Stats.Sub | internal/commitstats/file.go:234-243 | in whatever order the lines come, the counters end as the difference, for files that share no counters |
| FileStats.KindCounter.Fill | internal/commitstats/file.go:245-252 | positive counts are additions, negative ones deletions |
| FileStats.KindCounter.Add | internal/commitstats/common.go:26-29 | adds both numbers |
| FileStats.ResultFromStats | internal/commitstats/file.go:77-100 | adds up the counters in total and by kind, in whatever order the lines come; LineKinds says what that is in terms of the lines |
| FileStats.ResultFromChange | internal/commitstats/file.go:124-182 | the numbers of an inserted, deleted or modified file, line by line and kind by kind; none exactly for one with a version that is left out |
| FileStats.ResultOfCommit | internal/commitstats/commit.go:49-60 | counts the files of a commit, and each of its ten numbers is the sum of that number over the files |
| LineKinds.WholeByKind | internal/commitstats/file.go:77-100 | of an inserted file, the additions of a kind are the lines whose text was last seen as that kind; there are no deletions |
| LineKinds.ModifiedByKind | internal/commitstats/file.go:234-252 | of a modified file, a text of the new version is counted under the kind last seen there, by how much more often it occurs, and one of the old version alone under the kind last seen in that; fewer occurrences are deletions |
| LineKinds.ChangeByKind | internal/commitstats/file.go:124-182 | the numbers of any change are these |
| LineStats.AggregateIsSum | internal/commitstats/commit.go:49-60 | aggregating files sums each of the ten numbers |
| LineStats.CountsAreTexts | internal/commitstats/file.go:225-232 | each line of a file has a counter holding how often it occurs |
| LineStats.TotalIsMultisetDifference | internal/commitstats/file.go:234-252 | the additions of a modified file are the lines of the new version not in the old one, as multisets, and the deletions the other way round |
| LineStats.TotalBalances | internal/commitstats/file.go:234-252 | additions less deletions are what the file grew by, and swapping the versions swaps them |
| LineStats.ResultsAddUp | internal/commitstats/file.go:77-100 | code, comment, blank and other add up to the total |
| LineStats.AggregateAddsUp | internal/commitstats/commit.go:49-60 | they still do after adding up the files of a commit |
| LineStats.GrowthIsCountedIff | internal/commitstats/file.go:134-139 | additions less deletions are the growth of the file exactly unless it was deleted with lines in it, because a deleted file is counted as added |
| IndexCodecs.FoldIsZigZag | index.go:234-243 | shifting and inverting 64-bit integers maps 0, -1, 1, -2 and so on to 0, 1, 2, 3, as Protocol Buffers encodes signed integers |
| IndexCodecs.FoldInverts | index.go:195-243 | it is a bijection, the smallest integer included |
| IndexCodecs.Int64RoundTrips | index.go:195-243 | reading what was written, whatever follows it, gives the integer and leaves the rest |
| IndexCodecs.StringRoundTrips | index.go:211-254 | the same for strings |
| IndexCodecs.StringPanicsIff | index.go:211-223 | reading a string crashes exactly on a negative length |
| IndexCodecs.Buffer.WriteInt64 | index.go:234-243 | appends the eight bytes of the encoding |
| IndexCodecs.Buffer.WriteString | index.go:245-249 | appends the length and the bytes |
| IndexCodecs.Buffer.WriteHash | index.go:256-263 | appends forty bytes, or nothing and an error |
| IndexCodecs.Buffer.ReadInt64 | index.go:195-209 | consumes eight bytes and decodes them, or fails |
| IndexCodecs.Buffer.ReadString | index.go:211-223 | consumes a length and as many bytes |
| IndexCodecs.Buffer.ReadHash | index.go:265-272 | consumes forty bytes or fails |
| IndexCodecs.Buffer.ReadBool | index.go:225-232 | consumes one byte or fails |
| IndexKeys.PackRoundTrips | index.go:146-193 | decoding an encoded key, whatever follows it, gives the key with its hash emptied or its offset set to -1 |
| IndexKeys.PackIsPrefixFree | index.go:178-193 | no key's bytes begin another's and only keys with the same normal form share them |
| IndexKeys.FileRoundTrips | files.go:334-401 | the same round trip for keys of files |
| IndexKeys.FileIsPrefixFree | files.go:334-358 | the same for keys of files |
| IndexKeys.TreeEntryRoundTripsIff | tree_entries.go:272-324 | keys of tree entries round trip exactly if the packfile's hash has its size, which encoding does not check |
| IndexKeys.TreeEntryIsPrefixFree | tree_entries.go:272-286 | such keys are prefix-free |
| IndexKeys.CommitFileRoundTrips | commit_files.go:349-412 | keys of commit files round trip unchanged |
| IndexKeys.CommitFileIsPrefixFree | commit_files.go:349-373 | and are prefix-free |
| IndexKeys.RefCommitRoundTrips | ref_commits.go:152-212 | keys of ref_commits round trip unchanged |
| IndexKeys.RefCommitIsPrefixFree | ref_commits.go:152-186 | and are prefix-free |
| KeyLayouts.Int64IsLittleEndian | index.go:234-243 | an integer n is written as 2 n, or as -2 n - 1 below zero, in eight bytes, the least significant first |
| KeyLayouts.PackLayout | index.go:178-193 | a key is the length and bytes of the repository, the forty bytes of the packfile, 1 and the offset or 0 and the hash, and nothing else |
| KeyLayouts.FileLayout | files.go:334-358 | for a file this is followed by its name, mode and tree |
| KeyLayouts.TreeEntryLayout | tree_entries.go:272-286 | for a tree entry by its position; a packfile of the wrong size is left out |
| KeyLayouts.CommitFileLayout | commit_files.go:349-373 | a key of commit_files is repository, packfile, hash, offset, name, mode, tree and commit |
| KeyLayouts.RefCommitLayout | ref_commits.go:152-186 | a key of ref_commits is repository, hash, name and index |
| IndexBuffers.EncodePackKey | index.go:178-193 | writing the fields one after the other gives the bytes of the key, or none for a hash of the wrong size |
| IndexBuffers.DecodePackKey | index.go:146-176 | reading the fields one after the other decodes the key, fails or crashes as specified |
| IndexBuffers.EncodeFileKey | files.go:334-358 | the same for files |
| IndexBuffers.DecodeFileKey | files.go:360-401 | the same for files |
| IndexBuffers.EncodeTreeEntryKey | tree_entries.go:272-286 | the same for tree entries, ignoring a packfile of the wrong size |
| IndexBuffers.DecodeTreeEntryKey | tree_entries.go:288-324 | the same for tree entries |
| IndexBuffers.EncodeCommitFileKey | commit_files.go:349-373 | the same for commit files |
| IndexBuffers.DecodeCommitFileKey | commit_files.go:375-412 | the same for commit files |
| IndexBuffers.EncodeRefCommitKey | ref_commits.go:152-186 | the same for ref_commits |
| IndexBuffers.DecodeRefCommitKey | ref_commits.go:188-212 | the same for ref_commits |
| Packfiles.RepositoryIndex.Find | packfiles.go:97-117 | finds the first packfile with the object, then looks among the loose ones |
| Packfiles.FindInvertsDecode | packfiles.go:97-117 | an object is found exactly if it is packed or loose, and decoding what was found gives the object with that hash |
| Packfiles.LocatedFirst | packfiles.go:97-117 | an object is located in the first packfile that has it, even if it is loose too; otherwise loose, or not at all |
| Packfiles.DecodedFrom | packfiles.go:287-317 | an offset is looked up in the packfile of that name in that repository; below zero the hash has to be loose; anything else is an error |
| Packfiles.ObjectDecoder.Decode | packfiles.go:287-317 | whatever was decoded before, the answer is that of a decoder never used |
| TreeEntries.TreeEntriesIndexIter.Next | tree_entries.go:448-500 | each call returns the next entry, from the remembered tree when the offset or the hash says so |
| TreeEntries.CacheIsExact | tree_entries.go:448-500 | without a selector of hashes, for keys of one packfile at offsets above zero or of loose trees, in any order, remembering the last tree changes nothing |
| TreeCache.SelectorIsExactIff | tree_entries.go:448-500 | under any selector of hashes, for such keys, the answers are those of decoding every key afresh exactly if no key directly follows a rejected one and names the same loose tree or is at the offset of the last key that was not rejected |
| TreeCache.StaleOffsetIsReused | tree_entries.go:467-499 | after a rejected tree, a key at the offset of the tree before it is answered from the rejected tree |
| TreeCache.OffsetsAreExactIff | tree_entries.go:448-500 | without a selector, over any packfiles and repositories, exactly if, of consecutive keys at one offset, the tree of the first agrees with that of each on its hash and the entry |
| TreeCache.OneRepositoryIsNamed | tree_entries.go:448-500 | keys of one repository meet the condition that trees of one hash have the same entries |
| TreeCache.AnswersAreExactIff | tree_entries.go:448-500 | over any packfiles and repositories and under any selector, the answers are those of decoding every key afresh exactly if no rejected key is answered from the remembered tree, and every other key that is agrees with the key it came from on hash and entry |
| TreeCache.RejectedTreeIsReused | tree_entries.go:485-495 | the key after the one of a rejected loose tree gets an entry of it if it names the same tree |
| TreeEntries.TreeEntriesRowIter.Next | tree_entries.go:166-204 | returns the rows of the table one by one; which these are is said in RowsAreEntries |
| TreeEntries.TreeEntriesKeyValueIter.Next | tree_entries.go:360-408 | returns the keys of the table, or errors for trees that cannot be found, one by one; which these are is said in KeysAreEntries |
| TreeEntries.RowsAreEntries | tree_entries.go:166-204 | after the rows of the trees before it, each entry of a tree has its row, and there are as many rows as entries |
| TreeEntries.KeysAreEntries | tree_entries.go:360-408 | the same of the keys: where the tree is found, and the position of the entry |
| TreeEntries.SelectedKeysAreRows | tree_entries.go:480-492 | with hashes of trees to select, decoding the keys of the table gives its rows of these trees, in order |
| TreeEntries.FreshEnds | tree_entries.go:448-500 | decoding ends with an error at the first key that leads to no tree, and crashes at a key past the entries of a selected tree |
| TreeEntries.KeysAreRows | tree_entries.go:360-408 | decoding the keys of the table gives its rows |
| TreeEntries.IndexIsTable | tree_entries.go:448-500 | so reading the whole index of a repository with one packfile returns the table |

## Left out

- SquashedQueries.SquashedQueryIsPlainQuery: links to or from remotes, commit_trees, tree_entries, commit_blobs and blobs are in the plan and in every theorem about plans, but have no generators in this one; a table of these may still be joined around the chain. The link from commits to their main trees has one, with its own theorems, in MainTrees.
- RefHistoryQueries.ReadyQueriesArePreserved: a chain that opens with commits or commit_files lists commits through go-git's log of all references, which is not part of this model.
- IteratorPlans.IteratorsReturnPlainRows: a chain that opens with repositories is proved over its generators only; the iterators over repositories are not modelled as objects.
- IteratorPlans.IteratorsRunPlan: rows are compared with git errors skipped; with errors reported, the classes say where each error comes.
- FilesTable.SelectionIsExact: literals are compared as digests; the code parses them as hexadecimal text, so that upper-case or over-long text selects rows the filter itself would not keep.
- HashJoins.HashQueryIsPreservedIff: the condition is exact for the query with no other filter; other filters can remove the rows that make the difference, and with them only one direction is proved, in SquashedQueryIsPlainQuery.
- NarrowedJoins.NarrowedQueryIsPreservedIff: exact for the two equalities and no other filter, for the same reason.
- MainTrees.MainTreeStageIsExact: the plain table lists the trees of a commit as CommitTrees.Below does, which passes over a subtree that is not stored; what go-git's tree walker does there is not part of this model. The row of the commit's own tree comes first either way.
- FileStats.Stats.Sub: two files that share a counter are not covered; the code never makes such files.
- IndexCodecs.StringPanicsIff: a length too large to allocate counts as a failed read.
- go-git's storage, packfile bytes, zlib and the order of its own iterators: a repository is maps and sequences.
- The session, the repository pool's locking, spans, logging, cancellation and Close.
- Several repositories in one query: every partition of the original is one repository, as here.
- NULL, errors inside filters and type conversion; literals are compared as they are.
- The choice of joins to squash in a query tree, merging projections and rearranging nodes (internal/rule/squashjoins.go:21-237), but for the condition that decides whether two tables are chained.
- Chains that start from an index: plans are built for them, but only unindexed chains are run.
- The indexes of refs, ref_commits, commits, files and commit_files beyond their keys.
- commit_blobs, blobs and remotes as tables, and the iterators of the table commit_trees, which would repeat the patterns shown.
- The scanner that tells code from comments, the detection of languages, vendored and binary files: lines come with their kind, and versions of a file come as ignored, binary or text.
- Overflow of line counts.
