/** The state manager: applies blocks all or nothing, and keeps a snapshot of every height to go back to. */
module StateManager {
  import opened Hashes
  import opened Commitments
  import opened TrieModel
  import opened TriePruning
  import opened TrieProofs
  import opened VerkleTrie
  import opened Ledger
  import opened BlockRollback
  import opened Fees
  import opened StateBooks
  import opened StateHistory
  import opened Codec

  datatype StateError =
    | InvalidRollback | SnapshotNotFound | MissingInput | InsufficientGas | ExecutionFailed | TransitionFailed
    | StorageMissing | RootMismatch

  /** Writes the updates and the supply leaf, unless one would pay the burn address; the cap is only
      checked once everything is written. */
  method ApplyStateTransition(tree: VerkleTrie, updates: seq<Update>, newTotalSupply: nat) returns (ok: bool)
    requires tree.Valid() && KeysValid(updates)
    modifies tree
    ensures tree.Valid() && tree.prunedKeys == old(tree.prunedKeys)
    ensures ok <==> !Burns(updates) && newTotalSupply <= 600_000_000_000_000_000
    ensures tree.storage
      == if Burns(updates) then old(tree.storage) else Written(old(tree.storage), updates, newTotalSupply)
  {
    tree.dirty := true;
    for i := 0 to |updates|
      invariant tree.Valid() && tree.storage == old(tree.storage) && tree.prunedKeys == old(tree.prunedKeys)
      invariant forall j | 0 <= j < i :: !OwnedByBurnAddress(updates[j].value)
    {
      if OwnedByBurnAddress(updates[i].value) {
        return false;
      }
    }
    WriteAll(tree, updates);
    tree.Insert(SupplyKey(), EncodeSupply(newTotalSupply));
    return newTotalSupply <= MAX_GLOBAL_SUPPLY;
  }

  method WriteAll(tree: VerkleTrie, updates: seq<Update>)
    requires tree.Valid() && KeysValid(updates)
    modifies tree
    ensures tree.Valid() && tree.prunedKeys == old(tree.prunedKeys)
    ensures tree.storage == InsertAll(old(tree.storage), updates)
  {
    for i := 0 to |updates|
      invariant tree.Valid() && tree.prunedKeys == old(tree.prunedKeys)
      invariant tree.storage == InsertAll(old(tree.storage), updates[..i])
    {
      assert updates[..i + 1] == updates[..i] + [updates[i]];
      InsertAllStep(old(tree.storage), updates[..i], updates[i]);
      tree.Insert(updates[i].key, updates[i].value);
    }
    assert updates[..|updates|] == updates;
  }

  /** The calls a contract makes; pruning an absent key is an error the host ignores. */
  method MakeCalls(tree: VerkleTrie, calls: seq<TrieOp>)
    requires tree.Valid() && ValidOps(calls)
    modifies tree
    ensures tree.Valid() && tree.State() == AfterOps(old(tree.State()), calls)
  {
    for i := 0 to |calls|
      invariant tree.Valid() && tree.State() == AfterOps(old(tree.State()), calls[..i])
    {
      assert calls[..i + 1] == calls[..i] + [calls[i]];
      AfterOneMore(old(tree.State()), calls[..i], calls[i]);
      match calls[i]
      case Set(key, value) =>
        tree.Insert(key, value);
      case Forget(key) =>
        var error, cut := tree.PruneKey(key);
    }
    assert calls[..|calls|] == calls;
  }

  /** The books once the first `n` inputs are taken out. */
  ghost function Consumed(b: Book, tx: Transaction, n: nat): Book
    requires n <= |tx.inputs|
  {
    var gone := Elements(SpentList(tx)[..n]);
    b.(utxos := b.utxos - gone,
       supply := Drained(b.supply, b.utxos, tx.inputs[..n]),
       leafOf := b.leafOf - gone,
       markers := b.markers - gone)
  }

  ghost function Without(b: Book, k: OutPoint): Book {
    b.(utxos := b.utxos - {k},
       supply := SaturatingSub(b.supply, if k in b.utxos then b.utxos[k].value else 0),
       leafOf := b.leafOf - {k},
       markers := b.markers - {k})
  }

  lemma OneMoreInput(b: Book, tx: Transaction, n: nat)
    requires n < |tx.inputs| && SpentList(tx)[n] !in SpentList(tx)[..n]
    ensures Consumed(b, tx, n + 1) == Without(Consumed(b, tx, n), SpentList(tx)[n])
  {
    var keys := SpentList(tx);
    assert keys[..n + 1] == keys[..n] + [keys[n]];
    assert Elements(keys[..n + 1]) == Elements(keys[..n]) + {keys[n]};
    assert tx.inputs[..n + 1][..n] == tx.inputs[..n];
  }

  lemma AllInputs(b: Book, tx: Transaction)
    ensures Consumed(b, tx, |tx.inputs|)
      == b.(utxos := b.utxos - Spent(tx), supply := Drained(b.supply, b.utxos, tx.inputs),
      leafOf := b.leafOf - Spent(tx), markers := b.markers - Spent(tx))
  {
    ListsAreSets(tx);
    assert tx.inputs[..|tx.inputs|] == tx.inputs;
  }

  /** The leaf keys of the first `n` outputs. */
  ghost function KeysBelow(w: World, tx: Transaction, n: nat): map<OutPoint, Path> {
    map k | k in CreatedKeys(tx) && k.index < n :: w.outputKey(k)
  }

  /** The books once the first `n` outputs are put in. */
  ghost function Produced(w: World, b: Book, tx: Transaction, n: nat): Book
    requires n <= |tx.outputs|
  {
    b.(utxos := b.utxos + CreatedBelow(tx, n),
       supply := Filled(b.supply, tx.outputs[..n]),
       pending := b.pending + LeafUpdates(w, tx)[..n],
       leafOf := b.leafOf + KeysBelow(w, tx, n))
  }

  ghost function With(w: World, b: Book, k: OutPoint, output: TxOutput): Book {
    b.(utxos := b.utxos[k := output],
       supply := SaturatingAdd(b.supply, output.value),
       pending := b.pending + [Update(w.outputKey(k), EncodeOutput(output))],
       leafOf := b.leafOf[k := w.outputKey(k)])
  }

  lemma OneMoreKey(w: World, keys: map<OutPoint, Path>, tx: Transaction, n: nat)
    requires n < |tx.outputs|
    ensures keys + KeysBelow(w, tx, n + 1)
      == (keys + KeysBelow(w, tx, n))[OutPoint(tx.id, n) := w.outputKey(OutPoint(tx.id, n))]
  {
  }

  lemma OneMoreOutput(w: World, b: Book, tx: Transaction, n: nat)
    requires n < |tx.outputs|
    ensures Produced(w, b, tx, n + 1) == With(w, Produced(w, b, tx, n), OutPoint(tx.id, n), tx.outputs[n])
  {
    var updates := LeafUpdates(w, tx);
    assert updates[..n + 1] == updates[..n] + [updates[n]];
    assert tx.outputs[..n + 1][..n] == tx.outputs[..n];
    OneMoreCreated(b.utxos, tx, n);
    OneMoreKey(w, b.leafOf, tx, n);
  }

  lemma AllOutputs(w: World, b: Book, tx: Transaction)
    ensures Produced(w, b, tx, |tx.outputs|)
      == b.(utxos := b.utxos + Created(tx), supply := Filled(b.supply, tx.outputs),
      pending := b.pending + LeafUpdates(w, tx), leafOf := b.leafOf + map k | k in CreatedKeys(tx) :: w.outputKey(k))
  {
    AllCreated(tx);
    assert tx.outputs[..|tx.outputs|] == tx.outputs && LeafUpdates(w, tx)[..|tx.outputs|] == LeafUpdates(w, tx);
    assert KeysBelow(w, tx, |tx.outputs|) == map k | k in CreatedKeys(tx) :: w.outputKey(k);
  }

  /** Taking all inputs out and putting all outputs in settles a plain transaction. */
  lemma SettledBook(w: World, b: Book, tx: Transaction)
    requires Spendable(b.utxos, tx)
    ensures UtxoBook(w, b, tx) == Some(Produced(w, Consumed(b, tx, |tx.inputs|), tx, |tx.outputs|))
  {
    AllInputs(b, tx);
    AllOutputs(w, Consumed(b, tx, |tx.inputs|), tx);
  }

  class StateManager {
    const world: World
    var tree: VerkleTrie
    var currentHeight: nat
    var snapshots: seq<StateSnapshot>
    var snapshotStorages: seq<Storage>
    var pruneMarkers: map<OutPoint, PruneMarker>
    var outpointToKey: map<OutPoint, Path>
    var currentTotalSupply: nat
    var blockGasFees: seq<GasFeeWitness>
    var pendingUpdates: seq<Update>

    ghost predicate Valid()
      reads this, tree
    {
      tree.Valid() && ValidWorld(world) && Stacked(tree.scheme, currentHeight, snapshots, snapshotStorages) &&
      KeysValid(pendingUpdates)
    }

    /** The newest snapshot is of the tree as it is. */
    ghost predicate TopIsCurrent()
      reads this, tree
    {
      |snapshotStorages| == currentHeight + 1 && snapshotStorages[currentHeight] == tree.storage
    }

    function Books(utxo: UtxoSet): Book
      reads this, tree, utxo
    {
      Book(utxo.utxos, currentTotalSupply, pendingUpdates, tree.storage, tree.prunedKeys,
           outpointToKey, pruneMarkers, blockGasFees)
    }

    /** The whole state beside this set of unspent outputs. */
    ghost function Recorded(u: Utxos): History
      reads this, tree
    {
      History(Book(u, currentTotalSupply, pendingUpdates, tree.storage, tree.prunedKeys,
                   outpointToKey, pruneMarkers, blockGasFees),
              snapshots, snapshotStorages)
    }

    constructor (world: World, tree: VerkleTrie)
      requires tree.Valid() && ValidWorld(world)
      modifies tree
      ensures Valid() && TopIsCurrent() && this.tree == tree && tree.storage == old(tree.storage)
      ensures currentHeight == 0 && currentTotalSupply == 0 && pendingUpdates == []
      ensures forall u :: Recorded(u).book.supply == 0 && Recorded(u) == Start(tree.scheme, Recorded(u).book)
    {
      var root := tree.GetRoot();
      this.world := world;
      this.tree := tree;
      this.currentHeight := 0;
      this.snapshots := [StateSnapshot(0, root, 0, [])];
      this.snapshotStorages := [tree.storage];
      this.pruneMarkers := map[];
      this.outpointToKey := map[];
      this.currentTotalSupply := 0;
      this.blockGasFees := [];
      this.pendingUpdates := [];
    }

    method ConsumeInput(key: OutPoint, utxo: UtxoSet)
      requires key in utxo.utxos
      modifies this`currentTotalSupply, this`outpointToKey, this`pruneMarkers, utxo
      ensures Books(utxo) == Without(old(Books(utxo)), key)
    {
      currentTotalSupply := SaturatingSub(currentTotalSupply, utxo.utxos[key].value);
      utxo.utxos := utxo.utxos - {key};
      outpointToKey := outpointToKey - {key};
      pruneMarkers := pruneMarkers - {key};
    }

    method ConsumeInputs(tx: Transaction, utxo: UtxoSet) returns (ok: bool)
      modifies this`currentTotalSupply, this`outpointToKey, this`pruneMarkers, utxo
      ensures ok <==> Spendable(old(utxo.utxos), tx)
      ensures ok ==> Books(utxo) == Consumed(old(Books(utxo)), tx, |tx.inputs|)
    {
      ghost var b := Books(utxo);
      var keys := SpentList(tx);
      for i := 0 to |keys|
        invariant Distinct(keys[..i]) && Elements(keys[..i]) <= b.utxos.Keys
        invariant Books(utxo) == Consumed(b, tx, i)
      {
        assert keys[..i + 1] == keys[..i] + [keys[i]];
        if keys[i] !in utxo.utxos {
          AlreadyGone(keys, i, b.utxos.Keys);
          ListsAreSets(tx);
          return false;
        }
        OneMoreInput(b, tx, i);
        ConsumeInput(keys[i], utxo);
      }
      ListsAreSets(tx);
      return true;
    }

    method ProduceOutput(key: OutPoint, output: TxOutput, utxo: UtxoSet)
      modifies this`currentTotalSupply, this`outpointToKey, this`pendingUpdates, utxo
      ensures Books(utxo) == With(world, old(Books(utxo)), key, output)
    {
      utxo.utxos := utxo.utxos[key := output];
      pendingUpdates := pendingUpdates + [Update(world.outputKey(key), EncodeOutput(output))];
      outpointToKey := outpointToKey[key := world.outputKey(key)];
      currentTotalSupply := SaturatingAdd(currentTotalSupply, output.value);
    }

    method ProduceOutputs(tx: Transaction, utxo: UtxoSet)
      modifies this`currentTotalSupply, this`outpointToKey, this`pendingUpdates, utxo
      ensures Books(utxo) == Produced(world, old(Books(utxo)), tx, |tx.outputs|)
    {
      ghost var b := Books(utxo);
      for i := 0 to |tx.outputs|
        invariant Books(utxo) == Produced(world, b, tx, i)
      {
        OneMoreOutput(world, b, tx, i);
        ProduceOutput(OutPoint(tx.id, i), tx.outputs[i], utxo);
      }
    }

    method ApplyUtxoTransaction(tx: Transaction, utxo: UtxoSet) returns (error: Option<StateError>)
      modifies this`currentTotalSupply, this`outpointToKey, this`pendingUpdates, this`pruneMarkers, utxo
      ensures error.None? <==> UtxoBook(world, old(Books(utxo)), tx).Some?
      ensures error.None? ==> Books(utxo) == UtxoBook(world, old(Books(utxo)), tx).value
      ensures error.None? <==> Spent(tx) <= old(utxo.utxos).Keys && Distinct(SpentList(tx))
      ensures error.None? ==> utxo.utxos == old(utxo.utxos) - Spent(tx) + Created(tx)
      ensures error.None? ==>
        outpointToKey == (old(outpointToKey) - Spent(tx)) + map k | k in CreatedKeys(tx) :: world.outputKey(k)
      ensures error.None? ==> pruneMarkers == old(pruneMarkers) - Spent(tx)
    {
      var ok := ConsumeInputs(tx, utxo);
      if !ok {
        return Some(MissingInput);
      }
      ProduceOutputs(tx, utxo);
      SettledBook(world, old(Books(utxo)), tx);
      return None;
    }

    /** Checks the gas, runs the contract on the tree, then settles inputs and outputs as for a plain transaction. */
    method ApplyContractTransition(tx: Transaction, utxo: UtxoSet) returns (error: Option<StateError>)
      requires tree.Valid() && ValidWorld(world)
      modifies this`tree, this`currentTotalSupply, this`outpointToKey, this`pendingUpdates, this`pruneMarkers,
        this`blockGasFees, tree, utxo
      ensures tree.Valid() && (tree == old(tree) || fresh(tree)) && tree.scheme == old(tree.scheme)
      ensures error.None? <==> ContractBook(world, old(Books(utxo)), tx).Some?
      ensures error.None? ==> Books(utxo) == ContractBook(world, old(Books(utxo)), tx).value
      ensures error.None? ==>
        tx.gasLimit >= 21_000 + 4 * |tx.executionPayload| + 12 * |NonZeroBytes(tx.executionPayload)|
      ensures error.None? ==>
        var run := world.execute(tx, old(TrieState(tree.storage, tree.prunedKeys)));
        run.Ran? && blockGasFees == old(blockGasFees) + [FeeWitness(SaturatingMul(run.gasUsed, tx.maxFeePerGas))]
    {
      PayloadGasMeans(tx.executionPayload);
      var requiredGas := IntrinsicAndPayloadGas(tx.executionPayload);
      if tx.gasLimit < requiredGas {
        return Some(InsufficientGas);
      }
      var snapshot := tree.Clone();
      var execution := world.execute(tx, TrieState(tree.storage, tree.prunedKeys));
      match execution {
        case Failed =>
          tree := snapshot;
          return Some(ExecutionFailed);
        case Ran(gasUsed, calls) =>
          MakeCalls(tree, calls);
          blockGasFees := blockGasFees + [FeeWitness(SaturatingMul(gasUsed, tx.maxFeePerGas))];
          error := ApplyUtxoTransaction(tx, utxo);
      }
    }

    method ApplyTransaction(tx: Transaction, utxo: UtxoSet) returns (error: Option<StateError>)
      requires tree.Valid() && ValidWorld(world)
      modifies this`tree, this`currentTotalSupply, this`outpointToKey, this`pendingUpdates, this`pruneMarkers,
        this`blockGasFees, tree, utxo
      ensures tree.Valid() && (tree == old(tree) || fresh(tree)) && tree.scheme == old(tree.scheme)
      ensures error.None? <==> TxBook(world, old(Books(utxo)), tx).Some?
      ensures error.None? ==> Books(utxo) == TxBook(world, old(Books(utxo)), tx).value
    {
      if tx.executionPayload == [] && tx.contractAddress.None? {
        error := ApplyUtxoTransaction(tx, utxo);
      } else {
        error := ApplyContractTransition(tx, utxo);
      }
    }

    method ApplyNext(txs: seq<Transaction>, i: nat, utxo: UtxoSet, ghost b: Book) returns (error: Option<StateError>)
      requires tree.Valid() && ValidWorld(world) && i < |txs| && TxsBook(world, b, txs[..i]) == Some(Books(utxo))
      modifies this`tree, this`currentTotalSupply, this`outpointToKey, this`pendingUpdates, this`pruneMarkers,
        this`blockGasFees, tree, utxo
      ensures tree.Valid() && (tree == old(tree) || fresh(tree)) && tree.scheme == old(tree.scheme)
      ensures error.None? ==> TxsBook(world, b, txs[..i + 1]) == Some(Books(utxo))
      ensures error.Some? ==> TxsBook(world, b, txs).None?
    {
      ThroughNext(Settling(world), b, txs, i, Books(utxo));
      error := ApplyTransaction(txs[i], utxo);
    }

    method ApplyAll(txs: seq<Transaction>, utxo: UtxoSet) returns (error: Option<StateError>)
      requires tree.Valid() && ValidWorld(world)
      modifies this`tree, this`currentTotalSupply, this`outpointToKey, this`pendingUpdates, this`pruneMarkers,
        this`blockGasFees, tree, utxo
      ensures tree.Valid() && (tree == old(tree) || fresh(tree)) && tree.scheme == old(tree.scheme)
      ensures error.None? <==> TxsBook(world, old(Books(utxo)), txs).Some?
      ensures error.None? ==> Books(utxo) == TxsBook(world, old(Books(utxo)), txs).value
    {
      ghost var b := Books(utxo);
      for i := 0 to |txs|
        invariant tree.Valid() && (tree == old(tree) || fresh(tree)) && tree.scheme == old(tree.scheme)
        invariant TxsBook(world, b, txs[..i]) == Some(Books(utxo))
      {
        error := ApplyNext(txs, i, utxo, b);
        if error.Some? {
          return;
        }
      }
      assert txs[..|txs|] == txs;
      error := None;
    }

    /** Runs the transactions and writes the tree; on an error the fields are left as they happen to be. */
    method TryBlock(transactions: seq<Transaction>, utxo: UtxoSet) returns (error: Option<StateError>)
      requires tree.Valid() && ValidWorld(world)
      modifies this`tree, this`currentTotalSupply, this`outpointToKey, this`pendingUpdates, this`pruneMarkers,
        this`blockGasFees, tree, utxo
      ensures tree.Valid() && (tree == old(tree) || fresh(tree)) && tree.scheme == old(tree.scheme)
      ensures error.None? <==> BlockBook(world, old(Books(utxo)), transactions).Some?
      ensures error.None? ==> Books(utxo) == BlockBook(world, old(Books(utxo)), transactions).value
      ensures error.None? ==> KeysValid(pendingUpdates)
    {
      ghost var start := Books(utxo).(pending := [], gasFees := []);
      pendingUpdates := [];
      blockGasFees := [];
      error := ApplyAll(transactions, utxo);
      if error.None? {
        PendingKeysValid(world, start, transactions);
        var ok := ApplyStateTransition(tree, pendingUpdates, currentTotalSupply);
        error := if ok then None else Some(TransitionFailed);
      }
    }

    method PushSnapshot()
      requires tree.Valid() && Stacked(tree.scheme, currentHeight, snapshots, snapshotStorages)
      requires StoresSupply(tree.storage, currentTotalSupply)
      modifies this`currentHeight, this`snapshots, this`snapshotStorages, tree
      ensures tree.Valid() && tree.storage == old(tree.storage) && tree.prunedKeys == old(tree.prunedKeys)
      ensures Stacked(tree.scheme, currentHeight, snapshots, snapshotStorages) && TopIsCurrent()
      ensures currentHeight == old(currentHeight) + 1 && snapshotStorages == old(snapshotStorages) + [tree.storage]
      ensures snapshots == old(snapshots) +
        [StateSnapshot(currentHeight, Root(tree.scheme, tree.storage), currentTotalSupply, blockGasFees)]
    {
      currentHeight := currentHeight + 1;
      var newRoot := tree.GetRoot();
      snapshots := snapshots + [StateSnapshot(currentHeight, newRoot, currentTotalSupply, blockGasFees)];
      snapshotStorages := snapshotStorages + [tree.storage];
    }

    /** All or nothing: on any error every field, the set and the tree's nodes and marks are as before. */
    method ApplyBlock(transactions: seq<Transaction>, utxo: UtxoSet) returns (error: Option<StateError>)
      requires Valid()
      modifies this, tree, utxo
      ensures Valid() && (tree == old(tree) || fresh(tree)) && tree.scheme == old(tree.scheme)
      ensures error.None? <==> BlockBook(world, old(Books(utxo)), transactions).Some?
      ensures Books(utxo) == NextBook(world, old(Books(utxo)), transactions)
      ensures error.None? ==> currentHeight == old(currentHeight) + 1 && TopIsCurrent()
      ensures error.None? ==> snapshotStorages == old(snapshotStorages) + [tree.storage]
      ensures error.None? ==> |snapshots| == old(|snapshots|) + 1 && snapshots[..old(|snapshots|)] == old(snapshots)
      ensures error.None? ==> snapshots[currentHeight].height == currentHeight
      ensures error.None? ==> snapshots[currentHeight].root == Root(tree.scheme, tree.storage)
      ensures error.None? ==> snapshots[currentHeight].totalSupply == currentTotalSupply
      ensures error.None? ==> snapshots[currentHeight].gasFees == blockGasFees
      ensures Recorded(utxo.utxos) == After(tree.scheme, world, old(Recorded(utxo.utxos)), Apply(transactions))
      ensures error.Some? ==> currentHeight == old(currentHeight)
      ensures error.Some? ==> snapshots == old(snapshots) && snapshotStorages == old(snapshotStorages)
    {
      var snapshotTree := tree.Clone();
      var saved := Books(utxo);
      error := TryBlock(transactions, utxo);
      if error.Some? {
        Restore(snapshotTree, saved, utxo);
        return;
      }
      AcceptedStoresSupply(world, saved, transactions);
      PushSnapshot();
    }

    /** Puts back what was saved before the block, the tree from its copy. */
    method Restore(savedTree: VerkleTrie, saved: Book, utxo: UtxoSet)
      requires savedTree.storage == saved.storage && savedTree.prunedKeys == saved.marks
      modifies this`tree, this`currentTotalSupply, this`outpointToKey, this`pendingUpdates, this`pruneMarkers,
        this`blockGasFees, utxo
      ensures tree == savedTree && Books(utxo) == saved
    {
      tree := savedTree;
      currentTotalSupply, blockGasFees, pendingUpdates := saved.supply, saved.gasFees, saved.pending;
      pruneMarkers, outpointToKey, utxo.utxos := saved.markers, saved.leafOf, saved.utxos;
    }

    /** Goes back to a height: its store, supply and gas fees return; the root always matches the snapshot's. */
    method RollbackState(target: nat) returns (error: Option<StateError>)
      requires Valid()
      modifies this`tree, this`currentHeight, this`snapshots, this`snapshotStorages, this`currentTotalSupply,
        this`blockGasFees
      ensures Valid() && (tree == old(tree) || fresh(tree)) && tree.scheme == old(tree.scheme)
      ensures error == if target > old(currentHeight) then Some(InvalidRollback) else None
      ensures error.Some? ==> tree == old(tree) && currentHeight == old(currentHeight)
      ensures error.Some? ==> snapshots == old(snapshots) && snapshotStorages == old(snapshotStorages)
      ensures error.Some? ==> currentTotalSupply == old(currentTotalSupply) && blockGasFees == old(blockGasFees)
      ensures error.None? ==> currentHeight == target && TopIsCurrent() && tree.storage == old(snapshotStorages)[target]
      ensures error.None? ==>
        snapshots == old(snapshots)[..target + 1] && snapshotStorages == old(snapshotStorages)[..target + 1]
      ensures error.None? ==> currentTotalSupply == old(snapshots)[target].totalSupply
      ensures error.None? ==> blockGasFees == old(snapshots)[target].gasFees
      ensures error.None? ==> Root(tree.scheme, tree.storage) == old(snapshots)[target].root && tree.prunedKeys == {}
      ensures forall u :: Recorded(u) == After(tree.scheme, world, old(Recorded(u)), RollBack(target))
    {
      if target > currentHeight {
        return Some(InvalidRollback);
      }
      // Height `target` is at index `target`, so the source's missing-snapshot error is never returned.
      assert snapshots[target].height == target;
      if !exists i :: 0 <= i < |snapshots| && snapshots[i].height == target {
        return Some(SnapshotNotFound);
      }
      Rewind(target);
      var restoredRoot := tree.GetRoot();
      if restoredRoot != snapshots[target].root {
        return Some(RootMismatch);
      }
      return None;
    }

    method Rewind(target: nat)
      requires Valid() && target <= currentHeight
      modifies this`tree, this`currentHeight, this`snapshots, this`snapshotStorages, this`currentTotalSupply,
        this`blockGasFees
      ensures Valid() && fresh(tree) && tree.scheme == old(tree.scheme) && tree.prunedKeys == {}
      ensures currentHeight == target && TopIsCurrent() && tree.storage == old(snapshotStorages)[target]
      ensures snapshots == old(snapshots)[..target + 1] && snapshotStorages == old(snapshotStorages)[..target + 1]
      ensures currentTotalSupply == old(snapshots)[target].totalSupply && blockGasFees == old(snapshots)[target].gasFees
    {
      snapshots := snapshots[..target + 1];
      snapshotStorages := snapshotStorages[..target + 1];
      currentHeight := target;
      tree := new VerkleTrie(tree.scheme, snapshotStorages[target]);
      currentTotalSupply := snapshots[target].totalSupply;
      blockGasFees := snapshots[target].gasFees;
    }

    /** Goes back to a snapshot named by root and height. The supply and the gas fees are not restored. */
    method RestoreFromSnapshot(root: Digest, height: nat) returns (error: Option<StateError>)
      requires Valid()
      modifies this`tree, this`currentHeight, this`snapshots, this`snapshotStorages
      ensures Valid() && (tree == old(tree) || fresh(tree)) && tree.scheme == old(tree.scheme)
      ensures error.None? <==> height <= old(currentHeight) && old(snapshots)[height].root == root
      ensures error.Some? ==>
        error == Some(SnapshotNotFound) && tree == old(tree) && currentHeight == old(currentHeight)
      ensures error.Some? ==> snapshots == old(snapshots) && snapshotStorages == old(snapshotStorages)
      ensures error.None? ==> currentHeight == height && TopIsCurrent() && tree.storage == old(snapshotStorages)[height]
      ensures error.None? ==>
        snapshots == old(snapshots)[..height + 1] && snapshotStorages == old(snapshotStorages)[..height + 1]
      ensures error.None? ==> Root(tree.scheme, tree.storage) == root
      ensures forall u :: Recorded(u) == After(tree.scheme, world, old(Recorded(u)), RestoreTo(root, height))
    {
      var i := 0;
      while i < |snapshots| && !(snapshots[i].height == height && snapshots[i].root == root)
        invariant 0 <= i <= |snapshots|
        invariant forall j | 0 <= j < i :: !(snapshots[j].height == height && snapshots[j].root == root)
      {
        i := i + 1;
      }
      if i == |snapshots| {
        return Some(SnapshotNotFound);
      }
      assert i == height;
      tree := new VerkleTrie(tree.scheme, snapshotStorages[i]);
      currentHeight := height;
      snapshots := snapshots[..i + 1];
      snapshotStorages := snapshotStorages[..i + 1];
      return None;
    }
  }

  method IntrinsicAndPayloadGas(payload: seq<int>) returns (gas: nat)
    ensures gas == INTRINSIC_GAS + PayloadGas(payload)
    ensures gas == 21_000 + 4 * |payload| + 12 * |NonZeroBytes(payload)|
  {
    PayloadGasMeans(payload);
    var cost := 0;
    for i := 0 to |payload|
      invariant cost == PayloadGas(payload[..i])
    {
      assert payload[..i + 1][..i] == payload[..i];
      cost := cost + if payload[i] == 0 then 4 else 16;
    }
    assert payload[..|payload|] == payload;
    return INTRINSIC_GAS + cost;
  }

  lemma TxKeepsKeysValid(w: World, b: Book, tx: Transaction)
    requires ValidWorld(w) && KeysValid(b.pending) && TxBook(w, b, tx).Some?
    ensures KeysValid(TxBook(w, b, tx).value.pending)
  {
  }

  lemma {:induction false} PendingKeysValid(w: World, b: Book, txs: seq<Transaction>)
    requires ValidWorld(w) && KeysValid(b.pending) && TxsBook(w, b, txs).Some?
    ensures KeysValid(TxsBook(w, b, txs).value.pending)
    decreases |txs|
  {
    if txs != [] {
      var front := txs[..|txs| - 1];
      assert TxsBook(w, b, front).Some?;
      PendingKeysValid(w, b, front);
      TxKeepsKeysValid(w, TxsBook(w, b, front).value, txs[|txs| - 1]);
    }
  }
}
