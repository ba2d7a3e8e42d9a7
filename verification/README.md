# Klomang core: verification

A Dafny model of the BlockDAG engine in `src/core`, with proofs about it. `dafny verify dfyconfig.toml` checks the whole
project. Objects the engine updates in place are classes with the same fields; each method is proved against a function
of the old state, and lemmas say what those functions mean. Pure code is functions and lemmas.

| part | files |
|---|---|
| Block DAG, GHOSTDAG colouring and scoring, orderings | `Hashes`, `Graph`, `BlockDag`, `Colouring`, `Scoring`, `ScoreInvariant`, `ScoreRuns`, `ReplayOrder`, `StaleScores`, `BlueRuns`, `Kahn`, `VirtualSelection`, `VirtualRecords`, `GhostDag` |
| State trie, its cache, proofs and pruning | `Commitments`, `TrieModel`, `TriePruning`, `TrieRuns`, `TrieProofs`, `VerkleTrie`, `Codec` |
| Dirty-flag tree with kept commitments | `KeptCommitments`, `KeptRuns`, `PrunableTree` |
| UTXO ledger, block rollback, fees | `Ledger`, `BlockRollback`, `Fees` |
| State manager, supply, snapshots | `StateBooks`, `StateHistory`, `StateManager` |
| Polynomial opening | `FieldAlgebra`, `Polynomials`, `Opening` |
| Conflict scheduler, emission | `Scheduler`, `Emission`, `Division` |

## Main results

- **Scores.** Over every run of `add_block; process_block` from an empty DAG every block has its best parent selected and
  that parent's score plus the number of its stored blues, scores rise along every edge, no score exceeds 1 + n*n,
  orderings are topological, and the tips-only and whole-DAG choices of the best block agree (`ScoreRuns.RunIsHealthy`,
  `ScoresRise`, `ScoreBound`, `Kahn.TopologicalSort`, `VirtualSelection.VirtualSelectsTop`). The outcome of an
  arrival is unique whatever order its area is replayed in (`ReplayOrder.StepIsUnique`), colours follow a rule that names no
  order (`Scoring.ColoursAreInTurn`), and the virtual block is the record a block under all tips would get
  (`VirtualRecords.VirtualIsNextRecord`). With one cluster bound K a record is a fixpoint of recomputation exactly when it
  colours every block unordered with its selected parent (`StaleScores.SettledExactlyWhenCovered`), and pairwise
  unordered blues of a record number at most K + 2 (`BlueRuns.RunBlueWidth`).
- **Trie.** The cached root is that of the reachable leaves for any store; over every run of inserts and prunes the leaves,
  the marks, what each key reads and whether the root still stands for the calls are characterised exactly
  (`TrieModel.RootIsRepresented`, `TrieRuns.ReadsExactly`, `TrieRuns.StandsExactlyWhen`, `TrieRuns.RunsAgree`). Proofs are
  complete, and an accepted one is true or exhibits a collision (`TrieProofs.HonestAccepted`, `AcceptedIsTrueOrConfuses`).
- **Ledger.** Exact conditions for atomicity of a failed block and for the fee being the drop in value
  (`BlockRollback.FailureIsAtomicExactlyWhen`, `Fees.FeeIsTheDrop`); over every run of blocks, contracts included, the
  supply is within the cap and accounts for every unit (`StateBooks.RunSupply`); supply, set and tree agree over runs of
  plain blocks (`StateBooks.RunAgrees`); `StateManager.StateManager.ApplyBlock` is all or nothing, and a rollback gives
  back what snapshots recorded (`StateHistory.RunRecords`, `StateHistory.RollbackReturns`).
- **Openings, scheduling, emission.** `Opening.OpenThenVerify`, `Scheduler.SilentExactlyWhenConflictFree`,
  `Emission.IssuanceWithinCap`.
- **Dirty-flag tree.** Its root and its reads over every run of writes and prunes (`KeptRuns.RunRoot`, `KeptRuns.RunReads`).

## Where the code does less than it says

Each comes with the exact condition under which the code does meet the property, and with a failing input where the
condition does not show one.

- An arrival re-scores only its parents and what is after them, while anticones elsewhere grow too: a block outside that
  area goes stale unless its selected parent is before the new block (`StaleScores.StaysSettledExactlyWhen`,
  `StaleScores.StaleReached`).
- Long division pushes one coefficient a round, so zero coefficients of the quotient are lost. The verifier then rebuilds a
  shorter polynomial, and an honest opening is accepted exactly when that commits alike (`Opening.OpenThenVerify`; x^2 at 0
  in `Opening.SquareAtZeroIsRejected`).
- The interval count is cast to 32 bits in `raw_block_reward` but not in `total_emitted`; after 2^32 intervals the full
  reward is paid again, against the comment at `src/core/consensus/emission.rs:140`. The sum of rewards leaves the counted
  total there (`Emission.PaidIsCounted`), and passes the cap in the 247th round (`Emission.IssuanceWithinCap`,
  `Emission.PaidCanExceedTheCap`).
- `VerkleTree::insert` in `v_trie.rs` never clears a prune mark: a key set again after a prune can never be read
  (`TrieRuns.ReadsExactly`), and a later prune of another key can take it out of the root (`TriePruning.PruneKeepsTheRest`
  for one prune, `TrieRuns.StandsExactlyWhen` for runs, `TrieRuns.OrphanReached` for such a run).
- In the dirty-flag tree a write drops kept commitments along its own path, so a pruned neighbour under the same last node
  leaves the root (`KeptCommitments.WriteAfterPrune`, `KeptRuns.PrunesInvisibleExactlyWhen`).
- A failed block is not atomic when it re-creates an unspent outpoint (`BlockRollback.FailureIsAtomicExactlyWhen`,
  `BlockRollback.RepeatedCoinbaseLosesOutput`), and tracked supply and set part by the value so written over
  (`StateBooks.RunSupply`).
- The miner's part of a gas fee is 80% only while a 128-bit product does not wrap (`StateBooks.WitnessSplitsExactlyWhen`).
- `detect_group_conflicts` is silent on the scheduler's own groups only when there is at most one of them
  (`Scheduler.SilentExactlyWhenConflictFree`).
- `utxo.rs` compares addresses with the digest of 32 zero bytes, `v_trie.rs` with the zero bytes themselves; the two refuse
  the same outputs only if those are equal (`StateBooks.BurnChecksAgree`). Through the state manager it is the zero bytes
  that are never paid (`StateBooks.RunUnburned`).
- A rollback restores the supply of its height but not the set of unspent outputs, nor the leaf index
  (`StateHistory.RollbackLeavesTheSet`, `StateHistory.RollbackDisagrees`).
- A rollback rebuilds the tree from its nodes and drops all prune marks: a key that read as pruned at that height then
  reads as absent, or as its value (`TrieRuns.WithoutMarksReadsExactly`).

Two remarks. `docs/` describes a blue score over a block's past; the code counts anticones over the whole DAG, and the model
follows the code. The lookup of the raw empty key at `src/core/crypto/verkle/verkle_tree.rs:188` never succeeds, since every
key starts with a length byte.

## Assumptions

A hash is a 32-byte number with its order, otherwise opaque; scores are unbounded naturals with a separate bound.
Commitments, digests, scalar conversion and signature checks are abstract functions; collision-freeness is a hypothesis of
the lemmas that need it and of no other. A library sort is a function or method with the order it promises. A contract run
is a failure, or a gas figure and any sequence of writes and self-destructs: a function of the transaction and of the
tree's nodes and marks. That the leaf keys of outpoints do not collide is asked only of the outpoints a run creates. Field
laws are a hypothesis (`FieldAlgebra.Laws`).

## Model

| member | source | states |
|---|---|---|
| `BlockDag.Dag.AddBlock` | src/core/dag/mod.rs:32-71 | Refuses duplicates, self-parents, a second genesis and unknown parents, in that order, each exactly when its condition holds and none before it does, changing nothing; otherwise stores the block as given, adds it to the children of its parents, changes nothing else, and makes it the only new tip; the DAG stays well linked exactly when the block arrived without children |
| `BlockDag.Dag.LinkChild` | src/core/dag/mod.rs:54-62 | Every listed parent gains the new block as a child and no other record changes |
| `BlockDag.AddKeepsLinks` | src/core/dag/mod.rs:32-71 | An accepted block keeps children the mirror of parents, the DAG acyclic and parent-closed and at most one genesis, if and only if it came with no children; tips remain exactly the childless blocks |
| `Graph.Extend` | src/core/dag/mod.rs:32-71 | Adding a block above known parents keeps acyclicity and alters no existing order between blocks |
| `BlockDag.Dag.IsAncestor` | src/core/dag/mod.rs:83-107 | The stack walk ends and answers yes exactly for a strict, non-empty chain of parent links from b to a |
| `BlockDag.Dag.GetAncestors` | src/core/dag/mod.rs:109-132 | The stack walk ends and lists exactly the past, ascending |
| `BlockDag.Dag.GetDescendants` | src/core/dag/mod.rs:134-157 | The stack walk ends and lists exactly the future without the block itself, ascending |
| `BlockDag.Dag.VisitChildren` | src/core/dag/mod.rs:141-151 | Children seen for the first time are listed and pushed once each, the others not at all |
| `BlockDag.Dag.SearchParents` | src/core/dag/mod.rs:94-104 | Stops at the sought parent if and only if it is one, and otherwise pushes all parents |
| `BlockDag.Dag.CollectParents` | src/core/dag/mod.rs:118-126 | All parents join both the ancestors and the stack |
| `BlockDag.Dag.GetAnticone` | src/core/dag/anticone.rs:5-19 | Lists exactly the blocks neither before nor after the given one, ascending |
| `Graph.ClosedUpwards` | src/core/dag/mod.rs:109-132 | A visited set closed under parents contains everything before its members: why the walk misses nothing |
| `Graph.Partition` | src/core/dag/anticone.rs:5-19 | A block, its past, its future and its anticone are disjoint and make up the whole DAG; past and future are inverse and anticone is symmetric |
| `Graph.PastGrows` | src/core/consensus/ghostdag.rs:365-417 | A later block has a strictly larger past: the measure behind score bounds and the sort |
| `GhostDag.GhostDag.constructor` | src/core/consensus/ghostdag.rs:40-47 | The cluster parameter is clamped into 1..64 |
| `GhostDag.GhostDag.SelectParent` | src/core/consensus/ghostdag.rs:284-300 | The known parent with the highest score, ties to the lowest hash; none exactly when no parent is known |
| `GhostDag.GhostDag.BuildBlueSet` | src/core/consensus/ghostdag.rs:334-363 | A block of the selected parent's anticone is red if and only if more than k of the inherited blues and of the blocks of that anticone with smaller digests that are not red are unordered with it; all others, and all inherited ones, are blue |
| `Scoring.ColoursAreInTurn` | src/core/consensus/ghostdag.rs:334-363 | That rule, which names no order of turns, holds of the colours the loop ends with and of no others |
| `Colouring.RuleDecides` | src/core/consensus/ghostdag.rs:334-363 | Two colourings that follow the rule are the same |
| `Colouring.GreedyFollowsRule` | src/core/consensus/ghostdag.rs:334-363 | Colouring any ascending list of candidates one by one follows the rule |
| `GhostDag.GhostDag.ColourOne` | src/core/consensus/ghostdag.rs:352-360 | A candidate turns blue exactly when at most k of the blues so far are unordered with it |
| `Colouring.GreedyCovers` | src/core/consensus/ghostdag.rs:334-363 | Inherited blues stay blue, and blue and red together are exactly the inherited blues and the candidates |
| `Colouring.OverlapIsInherited` | src/core/consensus/ghostdag.rs:334-363 | A block is both blue and red only when it was inherited blue |
| `Colouring.RedsConflict` | src/core/consensus/ghostdag.rs:334-363 | Every red candidate has more than k final blues in its anticone |
| `Colouring.BlueWidth` | src/core/consensus/ghostdag.rs:334-363 | A set of pairwise unordered blues that contains an admitted candidate has at most k+1 members |
| `Scoring.ColoursCover` | src/core/consensus/ghostdag.rs:334-363 | Blue and red cover the inherited blues, the selected parent and its whole anticone and nothing else; they overlap only in inherited blues |
| `Scoring.RedsOutvoted` | src/core/consensus/ghostdag.rs:334-363 | On the DAG: each red block is unordered with more than k blue blocks |
| `Scoring.BlueClusterWidth` | src/core/consensus/ghostdag.rs:334-363 | On the DAG: an antichain of blues with an admitted candidate has width at most k+1 |
| `GhostDag.GhostDag.Rescore` | src/core/consensus/ghostdag.rs:393-413 | The new record keeps parents and children, selects the best parent, has the colours the rule gives under it, and its score plus the number of blues |
| `GhostDag.GhostDag.RecomputeBlock` | src/core/consensus/ghostdag.rs:365-417 | Rewrites one record and reports a change exactly when something changed; unknown, genesis and partly unknown-parent blocks are left alone |
| `ScoreInvariant.RecomputedFits` | src/core/consensus/ghostdag.rs:365-417 | After recomputing, the selected parent is the best parent and the score is its score plus the number of blues |
| `ScoreInvariant.RecomputedSettles` | src/core/consensus/ghostdag.rs:365-417 | Recomputing twice is recomputing once |
| `ScoreInvariant.OthersUndisturbed` | src/core/consensus/ghostdag.rs:365-417 | Recomputing a block spoils neither the record nor the fixpoint of any block that is not its child |
| `ScoreInvariant.ReplaySettles` | src/core/consensus/ghostdag.rs:546-578 | Replaying an upward-closed region in topological order leaves every block with a fitting record and every replayed block at a fixpoint |
| `GhostDag.GhostDag.AffectedArea` | src/core/consensus/ghostdag.rs:560-569 | The affected set is the parents of the new block and everything after any of them |
| `GhostDag.GhostDag.Replay` | src/core/consensus/ghostdag.rs:574-576 | The loop recomputes the listed blocks one after the other |
| `GhostDag.GhostDag.ProcessBlock` | src/core/consensus/ghostdag.rs:546-578 | Scores the block, then re-scores its affected area in some topological order; an unknown block changes nothing |
| `GhostDag.GhostDag.Receive` | src/core/consensus/ghostdag.rs:546-578 | Adding a block and processing it is one step of a run and keeps the DAG healthy |
| `ScoreRuns.StepKeepsHealth` | src/core/consensus/ghostdag.rs:546-578 | One arrival keeps every record fitting, and every block of the affected area ends at a fixpoint of recomputation |
| `ReplayOrder.StepIsUnique` | src/core/consensus/ghostdag.rs:546-578 | One arrival has one outcome: the affected blocks, which the source collects in a hash set, may be replayed in any topological order |
| `ReplayOrder.RunIsUnique` | src/core/consensus/ghostdag.rs:546-578 | Hence the store is a function of the sequence of arrivals |
| `ReplayOrder.SettledStoresAgree` | src/core/consensus/ghostdag.rs:546-578 | Two stores that agree outside a region and in which the region is at a fixpoint agree in it |
| `StaleScores.SettledInTurn` | src/core/consensus/ghostdag.rs:365-417 | A record is a fixpoint of recomputation if and only if its colours are those the rule gives under its selected parent |
| `StaleScores.StaysSettledExactlyWhen` | src/core/consensus/ghostdag.rs:546-578 | A block outside the re-scored area that was a fixpoint of recomputation stays one if and only if its selected parent is before the new block |
| `StaleScores.SettledExactlyWhenCovered` | src/core/consensus/ghostdag.rs:546-578 | Over every run with one cluster bound a record is a fixpoint of recomputation if and only if every block unordered with its selected parent has a colour in it |
| `StaleScores.StaleReached` | src/core/consensus/ghostdag.rs:546-578 | Concretely: after a genesis, two blocks on it and one block on each of those, recomputing the fourth block would change its record |
| `StaleScores.RunExists` | src/core/consensus/ghostdag.rs:546-578 | Every sequence of blocks none of which gives a reason to be refused is a run that can happen |
| `BlueRuns.RunBlueWidth` | src/core/consensus/ghostdag.rs:334-417 | Over every run whose cluster bounds are at most K, pairwise unordered blocks of any stored blue set number at most K + 2 |
| `BlueRuns.StepKeepsNarrow` | src/core/consensus/ghostdag.rs:334-417 | One arrival keeps every blue set narrow: off some chain of ancestors its pairwise unordered members number at most K + 1 |
| `ScoreRuns.RunIsHealthy` | src/core/consensus/ghostdag.rs:546-578 | Over every run from the empty DAG the DAG stays well linked, and every non-genesis block has its best parent selected and the score of that parent plus the number of its stored blues |
| `ScoreRuns.ParentScoresLess` | src/core/consensus/ghostdag.rs:365-417 | Scores strictly increase along every edge |
| `ScoreRuns.ScoresRise` | src/core/consensus/ghostdag.rs:365-417 | Scores strictly increase along every path |
| `ScoreRuns.ScoreBound` | src/core/consensus/ghostdag.rs:365-417 | With n blocks no score exceeds 1 + n*n |
| `Kahn.TopologicalSort` | src/core/consensus/ghostdag.rs:496-544 | Ends and returns a permutation of the distinct blocks asked for, each after its parents in that subset |
| `Kahn.CountDegrees` | src/core/consensus/ghostdag.rs:497-512 | The initial indegree of a block is the number of its parents in the subset |
| `Kahn.Release` | src/core/consensus/ghostdag.rs:532-539 | Each child loses one degree, and exactly those that reach zero are queued, once |
| `Kahn.Drain` | src/core/consensus/ghostdag.rs:520-543 | The loop keeps every indegree equal to the number of unemitted parents in the subset, so at the end whatever is left still waits for something |
| `Kahn.NoDeadlock` | src/core/consensus/ghostdag.rs:496-544 | In an acyclic DAG it cannot be that every remaining block waits for another |
| `Kahn.Complete` | src/core/consensus/ghostdag.rs:496-544 | Hence the order is complete once the queue runs dry |
| `GhostDag.GhostDag.BuildVirtualBlock` | src/core/consensus/ghostdag.rs:419-470 | Parents are the tips; a single block gives its own record, no block the empty one; otherwise the best tip is selected, the colours are those the rule gives under it, and the score is its score plus the number of blues |
| `VirtualRecords.VirtualIsNextRecord` | src/core/consensus/ghostdag.rs:419-470 | With two blocks or more the virtual block has the parents, selection, colours and score that any new block arriving under all the tips would be given |
| `VirtualSelection.TopIsATip` | src/core/consensus/ghostdag.rs:419-470 | The best block over the tips is the best block over the whole DAG |
| `VirtualSelection.VirtualSelectsTop` | src/core/consensus/ghostdag.rs:419-470 | With at least two blocks the virtual block selects the overall best block and outscores every block; with fewer it selects none |
| `GhostDag.GhostDag.GetVirtualBlock` | src/core/consensus/ghostdag.rs:592-608 | Over all blocks: highest score, ties to the lowest hash; a placeholder for the empty DAG |
| `GhostDag.GhostDag.GetVirtualSelectedChain` | src/core/consensus/ghostdag.rs:472-484 | The walk ends; with at least two blocks the result is a chain of selected parents from genesis to the overall best block, otherwise it is empty |
| `VirtualSelection.DescentReversed` | src/core/consensus/ghostdag.rs:472-484 | The reversed descent is a selected chain that starts at a parentless block |
| `GhostDag.GhostDag.GetOrdering` | src/core/consensus/ordering.rs:6-14 | All blocks, ascending by score and, at one score, by digest, which leaves one answer; so each once and after all its ancestors |
| `VirtualSelection.RankingIsTopological` | src/core/consensus/ordering.rs:6-14 | On every reachable DAG, sorting by score then hash is a topological order |
| `VirtualSelection.ProcessingKeepsTips` | src/core/consensus/ghostdag.rs:546-578 | Processing a block changes no tip |
| `Commitments.TrimmingScheme` | src/core/crypto/verkle/polynomial_commitment.rs:81-101 | A commitment to trimmed coefficient lists ignores trailing zeros, and is still injective on lists of one length when the underlying map is |
| `Commitments.ZeroLeafIsEmpty` | src/core/state/v_trie.rs:454-495 | An empty leaf and an absent one commit alike |
| `TrieModel.NodeIsCanonical` | src/core/state/v_trie.rs:454-519 | The commitment computed from the stored nodes is that of the full tree over the key-to-value map |
| `TrieModel.RootIsCanonical` | src/core/state/v_trie.rs:231-242 | The root is a function of the key-to-value map alone, whatever empty internal nodes are stored |
| `TrieModel.RootIsRepresented` | src/core/state/v_trie.rs:231-242 | For any store at all, orphans included, the root is that of the map of the leaves reachable from the root |
| `TrieModel.CanonLayout` | src/core/state/v_trie.rs:454-519 | What is committed to: a leaf to the scalar of its value alone, an absent leaf to nothing, any other node to 256 coefficients, child 0 first, each the scalar of the digest of that child |
| `TrieModel.SameContentsSameRoot` | src/core/state/v_trie.rs:231-242 | Two stores of the same map have one root |
| `TrieModel.RootBindsContents` | src/core/state/v_trie.rs:231-242 | With collision-free maps two stores with one root hold the same map |
| `TrieModel.OneRootOneMapOrConfuses` | src/core/state/v_trie.rs:231-242 | Without idealising the scheme: two stores with one root, orphans included, stand for the same map, or their maps exhibit a collision at the root digest or at a node |
| `TrieModel.SlotIsCanonical` | src/core/state/v_trie.rs:260-275 | Every child slot has the canonical commitment, stored or not, on the path or below its end |
| `VerkleTrie.VerkleTrie.constructor` | src/core/state/v_trie.rs:71-88 | A fresh tree has exact constants, an empty cache and the root node |
| `VerkleTrie.VerkleTrie.EmptyConstants` | src/core/state/v_trie.rs:497-519 | The table holds the commitment of an empty subtree for every depth |
| `VerkleTrie.VerkleTrie.Clone` | src/core/state/v_trie.rs:552-565 | The copy has the same nodes and marks and a cache of its own |
| `VerkleTrie.VerkleTrie.EnsureNode` | src/core/state/v_trie.rs:429-434 | Creates the node only if it is absent |
| `VerkleTrie.VerkleTrie.InvalidatePathCache` | src/core/state/v_trie.rs:221-229 | Drops exactly the cache entries on the path, and the cached root |
| `VerkleTrie.VerkleTrie.Insert` | src/core/state/v_trie.rs:90-106 | Sets the leaf, creates the nodes of its path, touches nothing else, clears no mark and keeps every remaining cached commitment exact |
| `VerkleTrie.VerkleTrie.Get` | src/core/state/v_trie.rs:149-161 | A marked key reads as pruned, any other as the stored value |
| `TriePruning.InsertSets` | src/core/state/v_trie.rs:90-106 | An insert updates exactly one key of the represented map |
| `TriePruning.InsertStaysUnmarked` | src/core/state/v_trie.rs:90-106 | An insert leaves the tree free of marked nodes if and only if no prefix of the key was marked |
| `TriePruning.CacheSurvives` | src/core/state/v_trie.rs:221-229 | Invalidating one path keeps every other cached commitment exact after a change on that path |
| `VerkleTrie.VerkleTrie.ComputeNodeCommitment` | src/core/state/v_trie.rs:454-495 | The cached recursion returns the from-scratch commitment and leaves the cache exact |
| `VerkleTrie.VerkleTrie.GetRoot` | src/core/state/v_trie.rs:231-242 | The cached root is the from-scratch root after any interleaving of operations |
| `VerkleTrie.VerkleTrie.PruneKey` | src/core/state/v_trie.rs:163-189 | Fails exactly on an absent leaf; otherwise removes and marks the leaf and every ancestor left without a live child, stopping at the first that has one, or at the root |
| `VerkleTrie.VerkleTrie.CleanupEmptyNodes` | src/core/state/v_trie.rs:193-219 | The upward loop removes exactly that stretch of the path |
| `TriePruning.PruneForgets` | src/core/state/v_trie.rs:163-219 | On a clean tree a prune removes exactly one key from the represented map and leaves a clean tree |
| `TriePruning.CutMeans` | src/core/state/v_trie.rs:193-219 | A node of the pruned path goes exactly when nothing stored and unmarked hangs beside the path from it downwards |
| `TriePruning.PruneKeepsTheRest` | src/core/state/v_trie.rs:163-219 | On any store, marked nodes included, a prune takes exactly its own key out of the represented map if and only if every other reachable key under the first node of the path is kept by a live sibling above the point where the two keys part |
| `TrieRuns.LeavesMean` | src/core/state/v_trie.rs:90-219 | Over every run of inserts and prunes, marked keys written again included, the stored leaves are exactly the plain map of the calls |
| `TrieRuns.MarkedExactly` | src/core/state/v_trie.rs:90-219 | Over every run a key is marked exactly when it was set and later pruned: no insert takes a mark away |
| `TrieRuns.NodesMarkedExactly` | src/core/state/v_trie.rs:90-219 | Over every run a node of any depth is marked exactly when some prune took it away |
| `TrieRuns.ReadsExactly` | src/core/state/v_trie.rs:90-219 | Over every run a key that was pruned after being set reads as pruned for ever, set again or not; any other key reads as in the plain map |
| `TrieRuns.WithoutMarksReadsExactly` | src/core/state_manager.rs:399-401 | When a rollback rebuilds the tree from its nodes alone, every key reads as in the plain map of the calls, and as it did at that height if and only if it was not pruned after being set |
| `TrieRuns.StoredExactly` | src/core/state/v_trie.rs:90-219 | Over every run an inner node or leaf is stored exactly when some insert went through it and every prune that cleared it was followed by such an insert |
| `TrieRuns.StandsExactlyWhen` | src/core/state/v_trie.rs:90-219 | Over every run the trie represents the plain map of the calls if and only if every node a prune cleared above a key still set was created again by a later insert |
| `TrieRuns.CleanRunsStand` | src/core/state/v_trie.rs:90-219 | A run in which no insert meets a mark on its path always represents the plain map |
| `TrieRuns.RunsAgree` | src/core/state/v_trie.rs:90-242 | Any two runs: the roots agree if the represented maps do, and with collision-free maps only then; runs that orphan nothing and mean one plain map have one root |
| `TrieRuns.OrphanReached` | src/core/state/v_trie.rs:90-219 | From the fresh trie: two keys that part at the last byte set, one pruned and set again, the other pruned; the first is still set and its leaf stored, yet the root is that of the empty trie |
| `VerkleTrie.VerkleTrie.CollectSlots` | src/core/state/v_trie.rs:260-289 | The siblings list holds the digests of all 256 slots of every level, also below the end of the path |
| `VerkleTrie.VerkleTrie.GenerateProof` | src/core/state/v_trie.rs:255-305 | For present and absent keys: the key, the represented value or none, the root, and at position 256 * d + i the digest of child i of the node at depth d of the path |
| `VerkleTrie.VerkleTrie.VerifyProof` | src/core/state/v_trie.rs:307-384 | The upward loop accepts exactly when there are 32 path bytes and 8192 digests, a value exactly in a membership proof, the recomputed root is the claimed one and the gas witness adds up to its total with the miner's part 80% rounded down |
| `TrieProofs.HonestAccepted` | src/core/state/v_trie.rs:255-384 | An honest proof, of presence or absence at any depth, is accepted if and only if its gas witness, when there is one, splits correctly |
| `TrieProofs.AcceptedIsTrueOrConfuses` | src/core/state/v_trie.rs:307-384 | Soundness without idealising the scheme: an accepted proof whose root is the map's reports the map's value, or its true absence, or exhibits with the map a collision at the root or at a level of the path |
| `TrieProofs.AcceptedIsTrue` | src/core/state/v_trie.rs:307-384 | Hence with collision-free maps it reports exactly the map's value, or its true absence |
| `TrieProofs.AcceptedAgainstStore` | src/core/state/v_trie.rs:307-384 | The same against the root of any store |
| `TrieProofs.ClimbBinds` | src/core/state/v_trie.rs:345-371 | Top-down over the levels: agreement at one level forces agreement at the leaf |
| `TrieProofs.ProofLayout` | src/core/state/v_trie.rs:336-371 | What is recomputed at a level: the 256 digests from position 256 * depth on, the one on the path replaced by what the level below gave; at the leaf the value alone, or nothing |
| `Ledger.UtxoSet.ValidateTx` | src/core/state/utxo.rs:33-116 | The fee, or the first error in the order of the checks |
| `Ledger.VerdictMeans` | src/core/state/utxo.rs:33-116 | A transaction passes if and only if it pays nothing to the burn address and, unless a coinbase, spends distinct existing signed inputs whose total fits 64 bits and covers its outputs; the fee is the difference |
| `Ledger.VerdictErrors` | src/core/state/utxo.rs:33-116 | Which error a refused transaction gets: burn, then repeated input, then outputs over 64 bits, then the first faulty input, then outputs its inputs do not cover |
| `Ledger.FaultMeans` | src/core/state/utxo.rs:75-108 | The first input that is not clean decides: missing, or else a running total over 64 bits, or else a malformed key, a malformed signature or a failed check |
| `Ledger.UtxoSet.ApplyTx` | src/core/state/utxo.rs:118-148 | Succeeds exactly when validation does, with the reported change set, and changes nothing otherwise: the error after validation is unreachable |
| `Ledger.UtxoSet.RevertTx` | src/core/state/utxo.rs:150-172 | Succeeds exactly when all created outputs are still there, once each, and all spent ones are recorded; then removes the former and restores the latter |
| `BlockRollback.BlockchainState.ApplyBlock` | src/core/state/mod.rs:101-137 | Applies all transactions, or stops at the first that fails and undoes the earlier ones last to first |
| `BlockRollback.OneMoreTx` | src/core/state/mod.rs:101-137 | A block is its transactions applied in order, recording what each spends as it is at that moment, later records over earlier ones |
| `BlockRollback.BlockchainState.RecordSpent` | src/core/state/mod.rs:110-115 | Records each spent output as it is at that moment, if it is there |
| `BlockRollback.BlockchainState.UndoAll` | src/core/state/mod.rs:122-130 | The loop undoes the change sets in reverse |
| `BlockRollback.UndoneExactlyWhen` | src/core/state/mod.rs:101-137 | Undoing restores the starting set if and only if no applied transaction overwrote an unspent output and the record holds the starting values |
| `BlockRollback.FreshBlockUndone` | src/core/state/mod.rs:101-137 | With distinct unused ids undoing restores the set exactly, spending chains inside the block included |
| `BlockRollback.UndoneUnlessOverwriting` | src/core/state/mod.rs:101-137 | With content-derived ids the undo is exact if and only if no applied transaction creates an outpoint that is unspent at that moment |
| `BlockRollback.RepeatedCoinbaseLosesOutput` | src/core/state/mod.rs:101-137 | Concretely: a block that repeats a coinbase whose output is unspent and then fails is reported as rejected and leaves the set without that output |
| `BlockRollback.FreshFailureIsAtomic` | src/core/state/mod.rs:101-137 | A failed block with distinct unused ids leaves the set untouched and never reports a failed revert |
| `BlockRollback.FailureIsAtomicExactlyWhen` | src/core/state/mod.rs:101-137 | The exact condition for atomicity in general; without overwriting the failed-revert branch is unreachable |
| `Fees.ValueBalance` | src/core/state/utxo.rs:118-148 | Conservation: value before plus outputs equals value after plus inputs plus whatever was overwritten |
| `Fees.FeeIsTheDrop` | src/core/state/utxo.rs:33-148 | A transaction lowers the total by exactly its fee if and only if what it overwrites has no value |
| `Fees.CalculateTxTotalFee` | src/core/consensus/reward.rs:68-95 | The validated fee plus gas limit times price, saturating, or the validation error |
| `Fees.CalculateAcceptedFees` | src/core/consensus/reward.rs:112-133 | Succeeds if and only if all paying transactions pass one after the other on the working copy and all fees and gas together fit 64 bits, and then returns that exact sum; failures tell the two causes apart, and the caller's set is untouched |
| `Fees.PayingMeans` | src/core/consensus/reward.rs:112-119 | The paying transactions are those with inputs, each as often as it is in the block |
| `Fees.PayOne` | src/core/consensus/reward.rs:116-130 | One round adds exactly this transaction's fee and gas; the apply after a computed fee cannot fail |
| `Fees.PoolIsTheDrop` | src/core/consensus/reward.rs:112-133 | Conservation over any block that passes: what was there and what coinbases bring in is what is there after, all fees, and what was written over; the fees are the drop if and only if nothing of value was |
| `Codec.BigEndianRoundTrip` | src/core/state/transaction.rs:216-230 | Fixed-width numbers survive encoding if and only if they fit |
| `Codec.OutputRoundTrip` | src/core/state/transaction.rs:216-230 | An output decodes from its encoding |
| `Codec.SupplyRoundTrip` | src/core/state/v_trie.rs:134-136 | The supply leaf decodes to the supply it was written from |
| `Codec.OutputLayout` | src/core/state/transaction.rs:216-230 | An output is 40 bytes: the value in eight, most significant first, then the digest |
| `Codec.SupplyLayout` | src/core/state/v_trie.rs:134-136 | The supply leaf is sixteen bytes, least significant first |
| `Codec.NodeLayout` | src/core/state/v_trie.rs:393-408 | A node is a zero byte, or a one, the length in four bytes, most significant first, and the value |
| `Codec.KeyLayout` | src/core/state/v_trie.rs:386-391 | A storage key is the length of the path in one byte and the path |
| `Codec.KeyForPathInjective` | src/core/state/v_trie.rs:386-391 | No two node paths share a storage key |
| `Codec.NodeRoundTrip` | src/core/state/v_trie.rs:393-427 | A stored node reads back if and only if its value is shorter than 2^32 bytes |
| `StateManager.ApplyStateTransition` | src/core/state/v_trie.rs:109-147 | Refused before any write when an update pays the burn address; otherwise writes all updates and the supply leaf, and fails exactly when the supply is over the cap |
| `StateManager.MakeCalls` | src/core/vm/executor.rs:253-301 | The calls of a contract run on the trie, writes and self-destructs in any order, and a self-destruct of an absent key is ignored: the trie ends where those calls lead |
| `StateManager.StateManager.constructor` | src/core/state_manager.rs:85-103 | Starts at height 0 with one snapshot of the given tree |
| `StateManager.StateManager.ConsumeInputs` | src/core/state_manager.rs:244-261 | Succeeds exactly when all inputs are there, none named twice; takes them out of the set, the books and the supply |
| `StateManager.StateManager.ProduceOutputs` | src/core/state_manager.rs:263-273 | Enters every output in the set, the leaf index, the pending updates and the supply |
| `StateManager.StateManager.ApplyUtxoTransaction` | src/core/state_manager.rs:243-276 | Succeeds exactly when all inputs are there, none named twice; then the set loses the spent and gains the created outputs, the leaf index likewise, prune markers of spent outputs go, and supply and pending updates follow |
| `StateManager.StateManager.ApplyContractTransition` | src/core/state_manager.rs:279-324 | On success the gas limit covered 21000, 4 for each payload byte and 12 more for each non-zero one, the run on nodes and marks of the tree succeeded, exactly one witness was appended, for the gas used at the offered price, and inputs and outputs settled; fails exactly when one of these steps does |
| `StateManager.StateManager.ApplyTransaction` | src/core/state_manager.rs:234-240 | Chooses between the two |
| `StateManager.StateManager.ApplyBlock` | src/core/state_manager.rs:114-202 | All or nothing, contracts that write and prune included: on success the books follow all transactions, the tree is written and one snapshot is pushed, with the new height, root, supply and gas fees; on any error every field, the set and the tree's nodes and marks are as before |
| `StateManager.StateManager.PushSnapshot` | src/core/state_manager.rs:181-199 | Raises the height by one and pushes the current root, supply and gas fees, and the current nodes |
| `StateManager.StateManager.RollbackState` | src/core/state_manager.rs:372-420 | Restores store, root, supply and gas fees of a height; fails only for a height above the current one, so the missing-snapshot and root-mismatch branches are unreachable |
| `StateManager.StateManager.Rewind` | src/core/state_manager.rs:387-408 | Truncates both stacks to the target and rebuilds the tree from the stored one |
| `StateManager.StateManager.RestoreFromSnapshot` | src/core/state_manager.rs:491-509 | Succeeds exactly when that height has that root; the tree and both stacks go back, supply and fees do not |
| `StateManager.IntrinsicAndPayloadGas` | src/core/state_manager.rs:281-285 | 21000, plus 4 for each payload byte, plus 12 more for each that is not zero |
| `StateHistory.RunRecords` | src/core/state_manager.rs:85-103 | Over every run of blocks, rollbacks and restores: snapshot 0 has no supply and no fees, any other the supply that the supply leaf of its stored nodes decodes to, and each the root of its nodes |
| `StateHistory.RollbackReturns` | src/core/state_manager.rs:372-420 | Going back to a block's height, after whatever was applied, rolled back or restored above it, gives back supply, gas fees, nodes and snapshots as they were right after that block |
| `StateHistory.AfterIsConsistent` | src/core/state_manager.rs:372-509 | One call keeps all of that |
| `StateHistory.RollbackLeavesTheSet` | src/core/state_manager.rs:372-420 | A rollback leaves the set of unspent outputs and the leaf index alone: supply and set agree afterwards if and only if the supply of that height is the value of the set as it is now |
| `StateHistory.RollbackDisagrees` | src/core/state_manager.rs:372-420 | Concretely: after one coinbase block and a rollback to height 0 the supply is 0 and the coinbase output is still in the set |
| `StateBooks.ContractSettlesExactlyWhen` | src/core/state_manager.rs:279-324 | A transaction with a payload or a contract address settles if and only if its gas limit covers the payload, its run succeeds and its inputs are there, each once; it leaves the trie where its calls lead and one witness for the gas used |
| `StateBooks.PlainSettlesExactlyWhen` | src/core/state_manager.rs:234-276 | Any other settles if and only if its inputs are there, each once, whatever its gas limit, and leaves trie and witnesses alone |
| `StateBooks.BlockGas` | src/core/state_manager.rs:114-202 | Every contract transaction of an accepted block had the gas, and the block has exactly one witness for each |
| `StateBooks.RunIndexed` | src/core/state_manager.rs:243-276 | Over every run of blocks the leaf index holds the leaf keys of exactly the unspent outputs |
| `StateBooks.SupplyFollows` | src/core/state_manager.rs:243-276 | Tracked supply moves by outputs minus inputs without saturating, and stays the value of the set if and only if nothing of value is overwritten |
| `StateBooks.BlockSupply` | src/core/state_manager.rs:114-202 | An accepted block, contracts included, moves the set as the ledger does, adds what it writes over to the difference between supply and set, keeps the supply within the cap and stores it in the supply leaf |
| `StateBooks.RunSupply` | src/core/state_manager.rs:114-202 | Over every run of blocks from an empty ledger, refused ones and contracts included and whatever the output digests, the supply is at most the cap and exceeds the value of the set by exactly what accepted blocks wrote over, for blocks whose outputs do not saturate the 128-bit counters; once a block was accepted it decodes from its leaf |
| `StateBooks.BurnChecksAgree` | src/core/state/v_trie.rs:109-147 | The ledger's burn check, against the digest it is given, and the trie's, against the zero bytes, turn away the same outputs if and only if that digest is the zero bytes |
| `StateBooks.RunUnburned` | src/core/state_manager.rs:114-202 | Over every run of blocks with encodable outputs, contracts included, no unspent output is owned by the all-zero address |
| `StateBooks.LeavesFollow` | src/core/state_manager.rs:263-273 | Writing a transaction's leaves keeps every unspent output in its leaf, when the outpoints involved have leaf keys of their own |
| `StateBooks.BlockLeaves` | src/core/state_manager.rs:114-202 | An accepted plain block leaves every unspent output in its leaf and marks nothing |
| `StateBooks.RunLeaves` | src/core/state_manager.rs:114-202 | The same over every run of plain blocks whose own created outpoints have distinct leaf keys |
| `StateBooks.RunAgrees` | src/core/state_manager.rs:114-202 | Over such a run supply and set agree if and only if nothing of value was written over, and every unspent output is read back from its leaf and decodes to itself |
| `StateBooks.SomeRun` | src/core/state_manager.rs:114-202 | The hypotheses of the run lemmas can be met: a world and a one-block run that creates any given encodable output within the cap |
| `StateBooks.WitnessSplitsExactlyWhen` | src/core/state_manager.rs:355-364 | The two parts always add up to the whole fee; the miner's is 80% rounded down if and only if the 128-bit product does not wrap, and then 5 times it is at most 4 times the fee and more than that less 5 |
| `Polynomials.FromCoefficients` | src/core/crypto/verkle/polynomial_commitment.rs:146-153 | Drops exactly the trailing zeros |
| `Polynomials.TrimmedUnique` | src/core/crypto/verkle/polynomial_commitment.rs:146-153 | A polynomial has one trimmed coefficient list |
| `Polynomials.EvalSame` | src/core/crypto/verkle/polynomial_commitment.rs:110-112 | The value at a point does not see trailing zeros |
| `Polynomials.NaiveMultiply` | src/core/crypto/verkle/polynomial_commitment.rs:204-234 | The double loop, zero coefficients skipped, computes the product coefficient by coefficient |
| `Polynomials.DivisionStep` | src/core/crypto/verkle/polynomial_commitment.rs:177-195 | One round cancels the leading term, lowers the degree and keeps numerator = quotient * denominator + remainder |
| `Polynomials.PolynomialDivision` | src/core/crypto/verkle/polynomial_commitment.rs:160-201 | The loop ends, and what it returns is a true quotient, with a remainder of lower degree, without its zero coefficients |
| `Opening.ReconstructPolynomialFromQuotient` | src/core/crypto/verkle/polynomial_commitment.rs:315-331 | The loop computes the coefficients of q(x)(x-z)+v |
| `Opening.EvalLift` | src/core/crypto/verkle/polynomial_commitment.rs:315-331 | Those coefficients evaluate to q(x)(x-z)+v for all q, z, v and x |
| `Opening.VerifyIpaProof` | src/core/crypto/verkle/polynomial_commitment.rs:251-276 | Accepts exactly when both claimed commitments are that of the scalars and the reconstructed polynomial commits to the commitment; rejects when either claimed commitment is not; errors exactly when the scalars, or after matching commitments the trimmed reconstruction, do not fit the generators |
| `Opening.AcceptedIsTrueOrCollides` | src/core/crypto/verkle/polynomial_commitment.rs:251-276 | Soundness without idealising the commitment: an accepted opening is true, with a valid quotient at every x, or exhibits a second polynomial with the same commitment |
| `Opening.Open` | src/core/crypto/verkle/polynomial_commitment.rs:104-124 | Errors exactly when the claimed value is wrong or the non-zero coefficients of the true quotient do not fit; otherwise sends exactly those, and a polynomial that fits the generators is always opened |
| `Opening.ComputeQuotientPolynomial` | src/core/crypto/verkle/polynomial_commitment.rs:136-157 | Returns the non-zero coefficients of the true quotient of p minus its value by x-z, which is given independently of the division |
| `Opening.QuotientLifts` | src/core/crypto/verkle/polynomial_commitment.rs:136-157 | Synthetic division: with the suffix values of p at z as coefficients of q, p is q(x)(x-z)+p(z) |
| `Opening.QuotientCoefficients` | src/core/crypto/verkle/polynomial_commitment.rs:136-157 | And only those: if p is q(x)(x-z)+v, coefficient i of q is the value at z of p without its first i+1 coefficients |
| `Opening.OpenThenVerify` | src/core/crypto/verkle/polynomial_commitment.rs:104-133 | What the verifier rebuilds from an honest opening of p commits as p does if and only if the opening is accepted; it is p itself, so that acceptance is certain, if and only if no suffix of p from the linear coefficient up vanishes at the point, and is shorter than p otherwise |
| `Opening.SquareAtZeroIsRejected` | src/core/crypto/verkle/polynomial_commitment.rs:159-201 | Concretely: x^2 is opened at 0 with the correct value 0, and the opening is rejected unless x and x^2 have one commitment |
| `Scheduler.ConflictMeans` | src/core/state/access_set.rs:15-20 | Two access sets conflict if and only if some key is touched by both and written by at least one; symmetric |
| `Scheduler.ScheduleTransactions` | src/core/scheduler/parallel.rs:36-83 | The queue loop computes the first-fit grouping of the transactions in id order |
| `Scheduler.CollectGroup` | src/core/scheduler/parallel.rs:54-67 | One pass collects the group and the positions whose removal leaves exactly the deferred ones |
| `Scheduler.RemovePositions` | src/core/scheduler/parallel.rs:70-72 | Removing positions from the back removes exactly those positions |
| `Scheduler.GroupsPartition` | src/core/scheduler/parallel.rs:36-83 | Every queued transaction is in exactly one group |
| `Scheduler.GroupsAreConflictFree` | src/core/scheduler/parallel.rs:53-80 | Groups are non-empty and pairwise conflict-free inside |
| `Scheduler.EarlierGroupsConflict` | src/core/scheduler/parallel.rs:53-80 | Each transaction conflicts with a member of every earlier group |
| `Scheduler.ScheduleIsFirstFit` | src/core/scheduler/parallel.rs:36-83 | Each scheduled transaction has in every earlier group a rival with a smaller id, or the same id and an earlier position |
| `Scheduler.ScheduleAscends` | src/core/scheduler/parallel.rs:36-83 | Every group ascends by id, then by position in the input |
| `Scheduler.GroupBound` | src/core/scheduler/parallel.rs:53-80 | At most one group more than the largest number of rivals |
| `Scheduler.ScheduleMeans` | src/core/scheduler/parallel.rs:36-83 | The schedule holds every input once, within that bound |
| `Scheduler.SortMeans` | src/core/scheduler/parallel.rs:47-48 | The sort is a stable permutation by id |
| `Scheduler.ScheduleIgnoresInputOrder` | src/core/scheduler/parallel.rs:36-83 | With distinct ids a permuted input gives the same groups, but for the recorded indices |
| `Scheduler.DetectGroupConflicts` | src/core/scheduler/parallel.rs:185-207 | Returns the first conflicting pair of groups in loop order, and none exactly when no two groups conflict |
| `Scheduler.CombinedConflict` | src/core/state/access_set.rs:15-25 | Merged access sets conflict if and only if some pair of members does |
| `Scheduler.SilentExactlyWhenConflictFree` | src/core/scheduler/parallel.rs:185-207 | On the scheduler's own groups detection is silent if and only if no two transactions conflict, that is, if there is at most one group |
| `Emission.RawBlockReward` | src/core/consensus/emission.rs:31-48 | The loop, with its early exit and its 128-step cap, halves as often as the truncated interval count says |
| `Emission.HalvedClosedForm` | src/core/consensus/emission.rs:31-48 | Iterated halving is one division by a power of two, floored at one unit |
| `Emission.TablesAreRight` | src/core/consensus/emission.rs:86-102 | Both tables hold the iterated halvings and their running sums |
| `Emission.TotalIsScheduled` | src/core/consensus/emission.rs:81-129 | The table formula is the sum of the halving schedule, clamped to the cap |
| `Emission.StepIsCounted` | src/core/consensus/emission.rs:141-157 | The total advances by exactly the reward paid if and only if the interval count fits 32 bits, or its truncation is at least 33, or at most one unit was left; it never advances by more |
| `Emission.PaidIsCounted` | src/core/consensus/emission.rs:81-157 | The sum of all rewards is the counted total if and only if the score is at most 2^32 halving intervals, and up to there it is within the cap |
| `Emission.IssuanceWithinCap` | src/core/consensus/emission.rs:31-48 | The rewards paid stay within the cap if and only if the score is at most 246 * (2^32 * 100000) + 343805629900000 |
| `Emission.PaidCanExceedTheCap` | src/core/consensus/emission.rs:36-37 | At that score exactly the cap has been paid, and one score later one unit more |
| `Emission.SplitReward` | src/core/consensus/emission.rs:55-77 | No unit is lost between miner and infrastructure, the miner gets 80% rounded down, node shares are equal and as large as possible; without nodes all goes to the miner |
| `Emission.BlockReward` | src/core/consensus/emission.rs:55-77 | The split is of the capped reward, and everything fits 64 bits |
| `PrunableTree.PrunableTree.constructor` | src/core/crypto/verkle/verkle_tree.rs:78-97 | A fresh tree has exact constants and nothing pruned |
| `PrunableTree.PrunableTree.GetNodeCommitment` | src/core/crypto/verkle/verkle_tree.rs:485-513 | Returns a node's commitment from the cache, the kept commitments or the recursion, and leaves clean entries exact |
| `PrunableTree.PrunableTree.ComputeNodeCommitment` | src/core/crypto/verkle/verkle_tree.rs:516-561 | The same without caching the result |
| `PrunableTree.PrunableTree.CollectChildren` | src/core/crypto/verkle/verkle_tree.rs:544-557 | The coefficients of an internal node, stored children or empty constants |
| `PrunableTree.PrunableTree.GetRoot` | src/core/crypto/verkle/verkle_tree.rs:121-130 | The root determined by store, marks and kept commitments, whatever was cached |
| `PrunableTree.PrunableTree.Get` | src/core/crypto/verkle/verkle_tree.rs:134-145 | An error on exactly the marked keys |
| `PrunableTree.PrunableTree.InvalidatePathCache` | src/core/crypto/verkle/verkle_tree.rs:452-461 | Marks exactly the entries on the path dirty |
| `PrunableTree.PrunableTree.KeepPath` | src/core/crypto/verkle/verkle_tree.rs:163-176 | Keeps the commitments of the whole path as they were before the prune |
| `PrunableTree.PrunableTree.PruneKey` | src/core/crypto/verkle/verkle_tree.rs:148-193 | Fails exactly on an absent leaf, changing nothing; otherwise deletes and marks the leaf, and the root does not move |
| `PrunableTree.PrunableTree.ClearPrunedState` | src/core/crypto/verkle/verkle_tree.rs:464-482 | Drops the mark of the key and the kept commitments of its path |
| `PrunableTree.PrunableTree.Insert` | src/core/crypto/verkle/verkle_tree.rs:100-118 | Sets the leaf and makes it readable again, pruned before or not |
| `KeptCommitments.PruningIsNeutral` | src/core/crypto/verkle/verkle_tree.rs:148-193 | Pruning changes no node's commitment |
| `KeptCommitments.PrunesKeepTheRoot` | src/core/crypto/verkle/verkle_tree.rs:134-193 | Over every run of prunes the root stands still and reads fail on exactly the keys marked before or pruned while stored |
| `KeptCommitments.UnprunedIsPlain` | src/core/crypto/verkle/verkle_tree.rs:516-561 | Without prunes this tree and the state trie commit to the same root |
| `KeptCommitments.WriteAfterPrune` | src/core/crypto/verkle/verkle_tree.rs:100-193 | In any state of the tree, pruning one key and then writing another gives the root of the write alone if the two keys part above the last level or the pruned leaf commits like an empty one; without collisions only then |
| `KeptRuns.RunRoot` | src/core/crypto/verkle/verkle_tree.rs:100-193 | Over every run of writes and prunes the root is that of the full tree over the counted values: a pruned value goes on counting until a write under its last node |
| `KeptRuns.RunReads` | src/core/crypto/verkle/verkle_tree.rs:100-193 | Over every run a read fails on exactly the keys pruned while set and not set again since; any other reads as in the plain map |
| `KeptRuns.CountedIsWritten` | src/core/crypto/verkle/verkle_tree.rs:100-193 | The root counts all that was written, with the values written last, if and only if no pruned key lost its kept commitment to a write of another key under its last node without being written again later |
| `KeptRuns.PrunesInvisibleExactlyWhen` | src/core/crypto/verkle/verkle_tree.rs:100-193 | The root of a run is the root of its writes alone if no call so dropped a pruned key for good, and without collisions only then |

## Left out

- GhostDag.GhostDag.ProcessBlock: the source collects the affected set in hash-set order; the model sorts it, and the contract is for some topological order (ReplayOrder.StepIsUnique: all give the same store).
- GhostDag.GhostDag.Receive: blocks arrive without children, as every caller builds them; `add_block` with children is covered by AddKeepsLinks.
- StateManager.StateManager.RestoreFromSnapshot: the source restores neither supply nor gas fees, so the contract does not promise them.
- StateBooks.RunAgrees: leaf agreement is for plain transactions with encodable outputs on a trie without marks; a contract may write or prune any leaf, so for it only RunSupply is claimed.
- Opening.Open: the source panics on an empty coefficient list, so the model requires a non-empty trimmed one.
- TrieProofs.AcceptedIsTrue: collision-freeness is an idealisation, since scalars are digests reduced modulo the group order; AcceptedIsTrueOrConfuses does without.
- Emission.TotalIsScheduled: a 64-bit `usize` is taken for `total_emitted`; on 32-bit targets its interval count wraps too.
- Difficulty, proof of work, clocks, `adjust_k`, `validate_block` and the merkle root: floating point, time or opaque hashing.
- `get_virtual_ordering`: sorts the same blocks by the same keys as `get_ordering`.
- `check_finality` and `can_reorganize`: they test membership in tips and promise little about common ancestors.
- `Dag::remove_block`: does not make parents tips again, so the DAG invariant does not survive it.
- Curve arithmetic, hashing, Schnorr batches, the generators and blinding factors: library calls, abstract here.
- Commitment errors inside the trees: a node has at most 256 coefficients, which the generators always cover.
- Opening proofs carried by the dirty-flag tree's proofs, and `verify_verkle_proof`: the verifier checks them only for errors.
- `calculate_verkle_root`: distinct outpoints can share its key, so order-independence does not hold in general.
- WASM execution, its metering and the host functions other than state writes and self-destructs: a foreign runtime.
- `execute_groups`: rejects groups of plain transactions because the tree root is unchanged until the block ends.
- How a transaction's access set is derived: its keys name the spending transaction, not the spent outpoints, and the payload scan is a heuristic.
- Prune markers and `execute_pruning_cycle`, `cross_check_supply_consistency`, the older `rollback` and `revert_block`: documented as incomplete or not adjusting the supply.
- The atomic flag and lock around `apply_block`: a single caller is modelled.
- Output indices beyond 32 bits: the source casts them, the model counts without a bound.
- Configuration, errors, logging and scripts: no logic of their own.
