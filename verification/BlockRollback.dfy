/** Applying a block transaction by transaction, and undoing it by replaying change sets backwards. */
module BlockRollback {
  import opened Hashes
  import opened Ledger

  ghost function Forward(u: Utxos, txs: seq<Transaction>): Utxos {
    if txs == [] then u else Applied(Forward(u, txs[..|txs| - 1]), txs[|txs| - 1])
  }

  /** Each transaction in turn passes against the set its predecessors left. */
  ghost predicate Passed(burnDigest: Hash, u: Utxos, txs: seq<Transaction>) {
    txs == [] ||
    (Passed(burnDigest, u, txs[..|txs| - 1]) &&
     Verdict(burnDigest, Forward(u, txs[..|txs| - 1]), txs[|txs| - 1]).Success?)
  }

  /** The output last seen, before each transaction, under every outpoint it was about to spend. */
  ghost function Recording(u: Utxos, txs: seq<Transaction>): Utxos {
    if txs == [] then
      map[]
    else
      var before := Forward(u, txs[..|txs| - 1]);
      Recording(u, txs[..|txs| - 1]) + map k | k in Spent(txs[|txs| - 1]) && k in before :: before[k]
  }

  /** Undoing the transactions last to first; `None` when some step finds an output missing. */
  ghost function Back(record: Utxos, txs: seq<Transaction>, u: Utxos): Option<Utxos> {
    if txs == [] then
      Some(u)
    else
      var tx := txs[|txs| - 1];
      if CreatedKeys(tx) <= u.Keys && Spent(tx) <= record.Keys then
        Back(record, txs[..|txs| - 1], Unwound(u, CreatedKeys(tx), Spent(tx), record))
      else
        None
  }

  /** Every transaction spends only what its predecessors left. */
  ghost predicate SpendsExisting(u: Utxos, txs: seq<Transaction>) {
    txs == [] ||
    (SpendsExisting(u, txs[..|txs| - 1]) && Spent(txs[|txs| - 1]) <= Forward(u, txs[..|txs| - 1]).Keys)
  }

  /** No transaction creates an outpoint that is still unspent when it is applied. */
  ghost predicate NoneOverwritten(u: Utxos, txs: seq<Transaction>) {
    txs == [] ||
    (NoneOverwritten(u, txs[..|txs| - 1]) &&
     CreatedKeys(txs[|txs| - 1]) !! Forward(u, txs[..|txs| - 1]).Keys - Spent(txs[|txs| - 1]))
  }

  ghost function SpentBy(txs: seq<Transaction>): set<OutPoint> {
    if txs == [] then {} else SpentBy(txs[..|txs| - 1]) + Spent(txs[|txs| - 1])
  }

  /** Outputs of the starting set that the block spends are recorded as they were. */
  ghost predicate Faithful(u: Utxos, txs: seq<Transaction>, record: Utxos) {
    forall k | k in u && k in SpentBy(txs) && k in record :: record[k] == u[k]
  }

  lemma {:induction false} PassedSpends(burnDigest: Hash, u: Utxos, txs: seq<Transaction>)
    requires Passed(burnDigest, u, txs)
    ensures SpendsExisting(u, txs)
    decreases |txs|
  {
    if txs != [] {
      PassedSpends(burnDigest, u, txs[..|txs| - 1]);
      PassedSpendsExisting(burnDigest, Forward(u, txs[..|txs| - 1]), txs[|txs| - 1]);
    }
  }

  /** One step back from a set with the keys the step forward left has the keys it started from. */
  lemma StepBackKeys(s: Utxos, tx: Transaction, r: Utxos, record: Utxos)
    requires Spent(tx) <= s.Keys && Spent(tx) <= record.Keys && r.Keys == Applied(s, tx).Keys
    requires CreatedKeys(tx) !! s.Keys - Spent(tx)
    ensures CreatedKeys(tx) <= r.Keys
    ensures Unwound(r, CreatedKeys(tx), Spent(tx), record).Keys == s.Keys
  {
  }

  /** Without overwriting, the way back succeeds, and what was spent comes back as recorded. */
  lemma {:induction false} BackSucceeds(u: Utxos, txs: seq<Transaction>, record: Utxos, r: Utxos)
    requires SpendsExisting(u, txs) && NoneOverwritten(u, txs) && SpentBy(txs) <= record.Keys
    requires r.Keys == Forward(u, txs).Keys
    ensures Back(record, txs, r).Some? && Back(record, txs, r).value.Keys == u.Keys
    ensures forall k | k in u && k in SpentBy(txs) :: Back(record, txs, r).value[k] == record[k]
    ensures forall k | k in u && k !in SpentBy(txs) :: k in r && Back(record, txs, r).value[k] == r[k]
    decreases |txs|
  {
    if txs != [] {
      var earlier, tx := txs[..|txs| - 1], txs[|txs| - 1];
      StepBackKeys(Forward(u, earlier), tx, r, record);
      BackSucceeds(u, earlier, record, Unwound(r, CreatedKeys(tx), Spent(tx), record));
      Unspent(u, earlier);
    }
  }

  /** An output of the starting set that nothing spends is still there. */
  lemma {:induction false} Unspent(u: Utxos, txs: seq<Transaction>)
    ensures forall k | k in u && k !in SpentBy(txs) :: k in Forward(u, txs)
    decreases |txs|
  {
    if txs != [] {
      Unspent(u, txs[..|txs| - 1]);
    }
  }

  /** Without overwriting, an output of the starting set that nothing spends is unchanged. */
  lemma {:induction false} Untouched(u: Utxos, txs: seq<Transaction>)
    requires NoneOverwritten(u, txs)
    ensures forall k | k in u && k !in SpentBy(txs) :: k in Forward(u, txs) && Forward(u, txs)[k] == u[k]
    decreases |txs|
  {
    if txs != [] {
      Untouched(u, txs[..|txs| - 1]);
    }
  }

  /** If the way back, from a part of what the way forward left, ends with all the starting keys,
      then nothing was overwritten and it was all of it. */
  lemma {:induction false} BackForcesFresh(u: Utxos, txs: seq<Transaction>, record: Utxos, r: Utxos)
    requires SpendsExisting(u, txs) && r.Keys <= Forward(u, txs).Keys
    requires Back(record, txs, r).Some? && Back(record, txs, r).value.Keys == u.Keys
    ensures NoneOverwritten(u, txs) && r.Keys == Forward(u, txs).Keys
    decreases |txs|
  {
    if txs != [] {
      var earlier, tx := txs[..|txs| - 1], txs[|txs| - 1];
      var s := Forward(u, earlier);
      var r' := Unwound(r, CreatedKeys(tx), Spent(tx), record);
      assert r'.Keys <= s.Keys;
      BackForcesFresh(u, earlier, record, r');
      assert r'.Keys == (r.Keys - CreatedKeys(tx)) + Spent(tx);
    }
  }

  /** Exactly when a failed block is undone without trace: nothing it created was already there,
      and what it spent of the starting set was recorded as it was. */
  lemma UndoneExactlyWhen(u: Utxos, txs: seq<Transaction>, record: Utxos)
    requires SpendsExisting(u, txs) && SpentBy(txs) <= record.Keys
    ensures Back(record, txs, Forward(u, txs)) == Some(u) <==> NoneOverwritten(u, txs) && Faithful(u, txs, record)
  {
    var end := Forward(u, txs);
    if NoneOverwritten(u, txs) {
      BackSucceeds(u, txs, record, end);
      Untouched(u, txs);
      var back := Back(record, txs, end).value;
      if Faithful(u, txs, record) {
        assert back == u;
      }
      if back == u {
        assert forall k | k in u && k in SpentBy(txs) :: back[k] == record[k];
      }
    } else if Back(record, txs, end) == Some(u) {
      BackForcesFresh(u, txs, record, end);
    }
  }

  ghost predicate FreshIds(u: Utxos, txs: seq<Transaction>) {
    (forall i, j | 0 <= i < j < |txs| :: txs[i].id != txs[j].id) &&
    forall i, k | 0 <= i < |txs| && k in u :: k.tx != txs[i].id
  }

  lemma {:induction false} ForwardKeys(u: Utxos, txs: seq<Transaction>)
    ensures forall k | k in Forward(u, txs) :: k in u || exists i :: 0 <= i < |txs| && k.tx == txs[i].id
    decreases |txs|
  {
    if txs != [] {
      ForwardKeys(u, txs[..|txs| - 1]);
    }
  }

  /** Distinct transaction ids that no unspent output carries rule overwriting out. */
  lemma {:induction false} FreshIdsOverwriteNothing(u: Utxos, txs: seq<Transaction>)
    requires FreshIds(u, txs)
    ensures NoneOverwritten(u, txs)
    decreases |txs|
  {
    if txs != [] {
      var n := |txs| - 1;
      FreshIdsOverwriteNothing(u, txs[..n]);
      ForwardKeys(u, txs[..n]);
      forall k | k in CreatedKeys(txs[n])
        ensures k !in Forward(u, txs[..n])
      {
      }
    }
  }

  /** They also keep every starting output that survives, and every record of one, as it was. */
  lemma {:induction false} FreshIdsKeepValues(u: Utxos, txs: seq<Transaction>)
    requires FreshIds(u, txs)
    ensures forall k | k in u && k in Forward(u, txs) :: Forward(u, txs)[k] == u[k]
    ensures forall k | k in u && k in Recording(u, txs) :: Recording(u, txs)[k] == u[k]
    decreases |txs|
  {
    if txs != [] {
      FreshIdsKeepValues(u, txs[..|txs| - 1]);
    }
  }

  lemma {:induction false} RecordsAllSpent(u: Utxos, txs: seq<Transaction>)
    requires SpendsExisting(u, txs)
    ensures SpentBy(txs) <= Recording(u, txs).Keys
    decreases |txs|
  {
    if txs != [] {
      RecordsAllSpent(u, txs[..|txs| - 1]);
    }
  }

  /** Atomicity by inverse replay, in-block spending chains included: with distinct unused ids,
      undoing the transactions before the failing one restores the set exactly. */
  lemma FreshBlockUndone(u: Utxos, txs: seq<Transaction>, n: nat)
    requires n < |txs| && FreshIds(u, txs) && SpendsExisting(u, txs[..n])
    ensures Back(Recording(u, txs[..n + 1]), txs[..n], Forward(u, txs[..n])) == Some(u)
  {
    assert txs[..n + 1][..n] == txs[..n];
    RecordsAllSpent(u, txs[..n]);
    FreshIdsOverwriteNothing(u, txs[..n]);
    FreshIdsKeepValues(u, txs[..n + 1]);
    UndoneExactlyWhen(u, txs[..n], Recording(u, txs[..n + 1]));
  }

  /** An id that is a digest of the transaction's content determines the outputs under it. */
  ghost predicate IdsDetermineOutputs(u: Utxos, txs: seq<Transaction>, outputOf: OutPoint -> TxOutput) {
    (forall k | k in u :: u[k] == outputOf(k)) &&
    forall i, k {:trigger txs[i], outputOf(k)} | 0 <= i < |txs| && k in CreatedKeys(txs[i]) ::
      txs[i].outputs[k.index] == outputOf(k)
  }

  lemma {:induction false} ValuesAreDetermined(u: Utxos, txs: seq<Transaction>, outputOf: OutPoint -> TxOutput)
    requires IdsDetermineOutputs(u, txs, outputOf)
    ensures forall k | k in Forward(u, txs) :: Forward(u, txs)[k] == outputOf(k)
    ensures forall k | k in Recording(u, txs) :: Recording(u, txs)[k] == outputOf(k)
    decreases |txs|
  {
    if txs != [] {
      var n := |txs| - 1;
      assert forall i | 0 <= i < n :: txs[..n][i] == txs[i];
      ValuesAreDetermined(u, txs[..n], outputOf);
      assert forall k | k in Created(txs[n]) :: Created(txs[n])[k] == outputOf(k);
    }
  }

  /** With content-derived ids the undo is exact if and only if no applied transaction creates an outpoint
      that is still unspent at that moment. */
  lemma UndoneUnlessOverwriting(u: Utxos, txs: seq<Transaction>, n: nat, outputOf: OutPoint -> TxOutput)
    requires n < |txs| && SpendsExisting(u, txs[..n]) && IdsDetermineOutputs(u, txs, outputOf)
    ensures Back(Recording(u, txs[..n + 1]), txs[..n], Forward(u, txs[..n])) == Some(u) <==>
      NoneOverwritten(u, txs[..n])
  {
    assert txs[..n + 1][..n] == txs[..n];
    assert forall i | 0 <= i < n + 1 :: txs[..n + 1][i] == txs[i];
    RecordsAllSpent(u, txs[..n]);
    ValuesAreDetermined(u, txs[..n + 1], outputOf);
    UndoneExactlyWhen(u, txs[..n], Recording(u, txs[..n + 1]));
  }

  datatype BlockOutcome = Accepted | Rejected(error: TxError) | RevertFailed(cause: TxError)

  /** The transaction at `n` is the first to fail, and the set and the outcome are what undoing the rest gives. */
  ghost predicate FailedAt(burnDigest: Hash, u: Utxos, txs: seq<Transaction>, n: nat, u': Utxos,
                           outcome: BlockOutcome) {
    n < |txs| && Passed(burnDigest, u, txs[..n]) &&
    var verdict := Verdict(burnDigest, Forward(u, txs[..n]), txs[n]);
    verdict.Failure? &&
    match Back(Recording(u, txs[..n + 1]), txs[..n], Forward(u, txs[..n]))
    case Some(back) => u' == back && outcome == Rejected(verdict.error)
    case None => outcome.RevertFailed?
  }

  /** A failed block with distinct unused ids leaves the set exactly as it was, and reports the
      transaction's own error. */
  lemma FreshFailureIsAtomic(burnDigest: Hash, u: Utxos, txs: seq<Transaction>, n: nat, u': Utxos,
                             outcome: BlockOutcome)
    requires FailedAt(burnDigest, u, txs, n, u', outcome) && FreshIds(u, txs)
    ensures u' == u && outcome.Rejected? && !Passed(burnDigest, u, txs)
  {
    PassedSpends(burnDigest, u, txs[..n]);
    FreshBlockUndone(u, txs, n);
    FailsLater(burnDigest, u, txs, n);
  }

  /** Without that, a failed block is atomic exactly when nothing it applied overwrote or misrecorded an output. */
  lemma FailureIsAtomicExactlyWhen(burnDigest: Hash, u: Utxos, txs: seq<Transaction>, n: nat, u': Utxos,
                                   outcome: BlockOutcome)
    requires FailedAt(burnDigest, u, txs, n, u', outcome)
    ensures u' == u && outcome.Rejected? <==>
      NoneOverwritten(u, txs[..n]) && Faithful(u, txs[..n], Recording(u, txs[..n + 1]))
    ensures NoneOverwritten(u, txs[..n]) ==> outcome.Rejected?
  {
    PassedSpends(burnDigest, u, txs[..n]);
    assert txs[..n + 1][..n] == txs[..n];
    RecordsAllSpent(u, txs[..n]);
    UndoneExactlyWhen(u, txs[..n], Recording(u, txs[..n + 1]));
    if NoneOverwritten(u, txs[..n]) {
      BackSucceeds(u, txs[..n], Recording(u, txs[..n + 1]), Forward(u, txs[..n]));
    }
  }

  /** A block that repeats a coinbase whose output is unspent, and then fails: undoing it takes the old output away too,
      and the block is reported as rejected. */
  lemma RepeatedCoinbaseLosesOutput(burnDigest: Hash, coinbase: Transaction, bad: Transaction, error: TxError)
    requires coinbase.inputs == [] && |coinbase.outputs| == 1 && coinbase.outputs[0].pubkeyHash != burnDigest
    requires Verdict(burnDigest, map[OutPoint(coinbase.id, 0) := coinbase.outputs[0]], bad) == Failure(error)
    ensures
      var u := map[OutPoint(coinbase.id, 0) := coinbase.outputs[0]];
      FailedAt(burnDigest, u, [coinbase, bad], 1, map[], Rejected(error))
  {
    var u := map[OutPoint(coinbase.id, 0) := coinbase.outputs[0]];
    var txs := [coinbase, bad];
    assert txs[..1] == [coinbase] && txs[..2] == txs;
    CoinbaseRepeats(burnDigest, coinbase);
    UndoneCoinbase(coinbase, Recording(u, txs));
  }

  lemma CoinbaseRepeats(burnDigest: Hash, coinbase: Transaction)
    requires coinbase.inputs == [] && |coinbase.outputs| == 1 && coinbase.outputs[0].pubkeyHash != burnDigest
    ensures
      var u := map[OutPoint(coinbase.id, 0) := coinbase.outputs[0]];
      Passed(burnDigest, u, [coinbase]) && Forward(u, [coinbase]) == u
  {
    var u := map[OutPoint(coinbase.id, 0) := coinbase.outputs[0]];
    VerdictMeans(burnDigest, u, coinbase);
    assert [coinbase] == [] + [coinbase];
    OneMoreTx(burnDigest, u, [], coinbase);
    assert Spent(coinbase) == {};
    assert CreatedKeys(coinbase) == {OutPoint(coinbase.id, 0)};
    assert Applied(u, coinbase) == u;
  }

  lemma UndoneCoinbase(coinbase: Transaction, record: Utxos)
    requires coinbase.inputs == [] && |coinbase.outputs| == 1
    ensures Back(record, [coinbase], map[OutPoint(coinbase.id, 0) := coinbase.outputs[0]]) == Some(map[])
  {
    var u := map[OutPoint(coinbase.id, 0) := coinbase.outputs[0]];
    assert CreatedKeys(coinbase) == {OutPoint(coinbase.id, 0)} && Spent(coinbase) == {};
    assert Unwound(u, CreatedKeys(coinbase), {}, record) == map[];
    assert [coinbase][..0] == [];
  }

  ghost predicate ChangesOf(changeSets: seq<ChangeSet>, txs: seq<Transaction>) {
    |changeSets| == |txs| &&
    forall j | 0 <= j < |txs| :: changeSets[j] == ChangeSet(SpentList(txs[j]), CreatedList(txs[j]))
  }

  lemma OneMoreTx(burnDigest: Hash, u: Utxos, txs: seq<Transaction>, tx: Transaction)
    ensures Forward(u, txs + [tx]) == Applied(Forward(u, txs), tx)
    ensures Recording(u, txs + [tx]) ==
      Recording(u, txs) + map k | k in Spent(tx) && k in Forward(u, txs) :: Forward(u, txs)[k]
    ensures Passed(burnDigest, u, txs + [tx]) <==>
      Passed(burnDigest, u, txs) && Verdict(burnDigest, Forward(u, txs), tx).Success?
  {
    assert (txs + [tx])[..|txs|] == txs;
  }

  lemma NextTx(burnDigest: Hash, u: Utxos, txs: seq<Transaction>, n: nat)
    requires n < |txs|
    ensures Forward(u, txs[..n + 1]) == Applied(Forward(u, txs[..n]), txs[n])
    ensures Recording(u, txs[..n + 1]) ==
      Recording(u, txs[..n]) + map k | k in Spent(txs[n]) && k in Forward(u, txs[..n]) :: Forward(u, txs[..n])[k]
    ensures Passed(burnDigest, u, txs[..n + 1]) <==>
      Passed(burnDigest, u, txs[..n]) && Verdict(burnDigest, Forward(u, txs[..n]), txs[n]).Success?
  {
    assert txs[..n + 1] == txs[..n] + [txs[n]];
    OneMoreTx(burnDigest, u, txs[..n], txs[n]);
  }

  lemma NextChange(changeSets: seq<ChangeSet>, txs: seq<Transaction>, n: nat)
    requires n < |txs| && ChangesOf(changeSets, txs[..n])
    ensures ChangesOf(changeSets + [ChangeSet(SpentList(txs[n]), CreatedList(txs[n]))], txs[..n + 1])
  {
  }

  class BlockchainState {
    const utxoSet: UtxoSet

    constructor (utxoSet: UtxoSet)
      ensures this.utxoSet == utxoSet
    {
      this.utxoSet := utxoSet;
    }

    /** Applies a block's transactions in order; at the first that fails, undoes those before it, last to first. */
    method ApplyBlock(transactions: seq<Transaction>) returns (outcome: BlockOutcome, ghost n: nat)
      modifies utxoSet
      ensures outcome.Accepted? ==>
        Passed(utxoSet.burnDigest, old(utxoSet.utxos), transactions) &&
        utxoSet.utxos == Forward(old(utxoSet.utxos), transactions)
      ensures !outcome.Accepted? ==>
        FailedAt(utxoSet.burnDigest, old(utxoSet.utxos), transactions, n, utxoSet.utxos, outcome)
    {
      ghost var u := utxoSet.utxos;
      var changeSets: seq<ChangeSet> := [];
      var spentOutputs: Utxos := map[];
      n := 0;
      for i := 0 to |transactions|
        invariant utxoSet.utxos == Forward(u, transactions[..i]) && Passed(utxoSet.burnDigest, u, transactions[..i])
        invariant spentOutputs == Recording(u, transactions[..i])
        invariant ChangesOf(changeSets, transactions[..i])
      {
        var tx := transactions[i];
        NextTx(utxoSet.burnDigest, u, transactions, i);
        spentOutputs := RecordSpent(tx, spentOutputs);
        var result := utxoSet.ApplyTx(tx);
        if result.Failure? {
          n := i;
          outcome := Abort(changeSets, spentOutputs, result.error, u, transactions, i);
          return;
        }
        NextChange(changeSets, transactions, i);
        changeSets := changeSets + [result.value];
      }
      assert transactions[..|transactions|] == transactions;
      return Accepted, n;
    }

    /** Undoes what was applied before the failing transaction. */
    method Abort(changeSets: seq<ChangeSet>, spentOutputs: Utxos, error: TxError,
                 ghost u: Utxos, ghost txs: seq<Transaction>, ghost n: nat) returns (outcome: BlockOutcome)
      requires n < |txs| && Passed(utxoSet.burnDigest, u, txs[..n]) && utxoSet.utxos == Forward(u, txs[..n])
      requires Verdict(utxoSet.burnDigest, Forward(u, txs[..n]), txs[n]) == Failure(error)
      requires ChangesOf(changeSets, txs[..n]) && spentOutputs == Recording(u, txs[..n + 1])
      modifies utxoSet
      ensures FailedAt(utxoSet.burnDigest, u, txs, n, utxoSet.utxos, outcome) && !outcome.Accepted?
    {
      var revertError := UndoAll(changeSets, spentOutputs, txs[..n]);
      outcome := if revertError.Some? then RevertFailed(revertError.value) else Rejected(error);
    }

    method RecordSpent(tx: Transaction, recorded: Utxos) returns (spentOutputs: Utxos)
      ensures spentOutputs == recorded + map k | k in Spent(tx) && k in utxoSet.utxos :: utxoSet.utxos[k]
    {
      ghost var u := utxoSet.utxos;
      var keys := SpentList(tx);
      spentOutputs := recorded;
      for i := 0 to |keys|
        invariant spentOutputs == WithFound(recorded, u, Elements(keys[..i]))
      {
        OneMoreFound(recorded, u, keys, i);
        if keys[i] in utxoSet.utxos {
          spentOutputs := spentOutputs[keys[i] := utxoSet.utxos[keys[i]]];
        }
      }
      ListsAreSets(tx);
    }

    method UndoAll(changeSets: seq<ChangeSet>, spentOutputs: Utxos, ghost txs: seq<Transaction>)
      returns (error: Option<TxError>)
      requires ChangesOf(changeSets, txs)
      modifies utxoSet
      ensures error.None? <==> Back(spentOutputs, txs, old(utxoSet.utxos)).Some?
      ensures error.None? ==> utxoSet.utxos == Back(spentOutputs, txs, old(utxoSet.utxos)).value
    {
      var i := |changeSets|;
      assert txs[..i] == txs;
      while i > 0
        invariant 0 <= i <= |txs|
        invariant Back(spentOutputs, txs[..i], utxoSet.utxos) == Back(spentOutputs, txs, old(utxoSet.utxos))
      {
        i := i - 1;
        assert txs[..i + 1][..i] == txs[..i];
        ListsAreSets(txs[i]);
        error := utxoSet.RevertTx(changeSets[i], spentOutputs);
        if error.Some? {
          return;
        }
      }
      error := None;
    }
  }

  /** `recorded`, and whatever `u` holds of the keys. */
  ghost function WithFound(recorded: Utxos, u: Utxos, keys: set<OutPoint>): Utxos {
    recorded + map k | k in keys && k in u :: u[k]
  }

  lemma OneMoreFound(recorded: Utxos, u: Utxos, keys: seq<OutPoint>, i: nat)
    requires i < |keys|
    ensures
      var before := WithFound(recorded, u, Elements(keys[..i]));
      WithFound(recorded, u, Elements(keys[..i + 1])) == if keys[i] in u then before[keys[i] := u[keys[i]]] else before
  {
    assert keys[..i + 1] == keys[..i] + [keys[i]];
    assert Elements(keys[..i + 1]) == Elements(keys[..i]) + {keys[i]};
  }

  lemma ListsAreSets(tx: Transaction)
    ensures SpentList(tx)[..|tx.inputs|] == SpentList(tx) && Elements(SpentList(tx)) == Spent(tx)
    ensures Elements(CreatedList(tx)) == CreatedKeys(tx) && Distinct(CreatedList(tx))
  {
    forall k | k in CreatedKeys(tx)
      ensures k in CreatedList(tx)
    {
      assert CreatedList(tx)[k.index] == k;
    }
    forall k | k in Spent(tx)
      ensures k in SpentList(tx)
    {
      var i :| 0 <= i < |tx.inputs| && k == Spends(tx.inputs[i]);
      assert SpentList(tx)[i] == k;
    }
  }

  lemma {:induction false} FailsLater(burnDigest: Hash, u: Utxos, txs: seq<Transaction>, n: nat)
    requires n < |txs| && Verdict(burnDigest, Forward(u, txs[..n]), txs[n]).Failure?
    ensures !Passed(burnDigest, u, txs)
    decreases |txs|
  {
    var front := txs[..|txs| - 1];
    if n < |front| {
      assert front[..n] == txs[..n] && front[n] == txs[n];
      FailsLater(burnDigest, u, front, n);
    } else {
      assert front == txs[..n];
    }
  }
}
