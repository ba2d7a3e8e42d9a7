/** What applying a block makes of the state manager's books, as values, and what stays in agreement. */
module StateBooks {
  import opened Hashes
  import opened Commitments
  import opened TrieModel
  import opened TriePruning
  import opened Ledger
  import opened BlockRollback
  import opened Fees
  import opened Codec
  import opened TrieProofs

  const MAX_GLOBAL_SUPPLY: nat := 600_000_000_000_000_000
  const BURN_ADDRESS: Hash := 0
  const INTRINSIC_GAS: nat := 21_000

  datatype Update = Update(key: Path, value: Bytes)

  ghost predicate KeysValid(updates: seq<Update>) {
    forall i | 0 <= i < |updates| :: ValidKey(updates[i].key)
  }

  /** A contract run: it fails, or it used gas and made calls on the trie, writes and self-destructs in any order. */
  datatype Execution = Failed | Ran(gasUsed: nat, calls: seq<TrieOp>)

  /** The outside world: the contract machine, which reads nodes and marks, and the digest that places an output. */
  datatype World = World(execute: (Transaction, TrieState) -> Execution, outputKey: OutPoint -> Path)

  ghost predicate ValidWorld(w: World) {
    (forall k :: ValidKey(w.outputKey(k))) &&
    forall tx, t {:trigger w.execute(tx, t)} :: w.execute(tx, t).Ran? ==> ValidOps(w.execute(tx, t).calls)
  }

  /** The leaf that holds the total supply: the all-zero key. */
  function SupplyKey(): (k: Path)
    ensures ValidKey(k)
  {
    seq(KEY_SIZE, _ => 0)
  }

  datatype PruneMarker = PruneMarker(epoch: nat, timestamp: nat)

  datatype Book = Book(
    utxos: Utxos,
    supply: nat,
    pending: seq<Update>,
    storage: Storage,
    marks: set<Path>,
    leafOf: map<OutPoint, Path>,
    markers: map<OutPoint, PruneMarker>,
    gasFees: seq<GasFeeWitness>
  )

  function SaturatingSub(a: nat, b: nat): (r: nat)
    ensures r + b == a || (r == 0 && a < b)
  {
    if a < b then 0 else a - b
  }

  /** The supply after taking the inputs out one by one, against the set they are taken from. */
  ghost function Drained(supply: nat, u: Utxos, inputs: seq<TxInput>): nat {
    if inputs == [] then supply
    else
      var k := Spends(inputs[|inputs| - 1]);
      SaturatingSub(Drained(supply, u, inputs[..|inputs| - 1]), if k in u then u[k].value else 0)
  }

  function Filled(supply: nat, outputs: seq<TxOutput>): nat {
    if outputs == [] then supply
    else SaturatingAdd(Filled(supply, outputs[..|outputs| - 1]), outputs[|outputs| - 1].value)
  }

  function LeafUpdates(w: World, tx: Transaction): (r: seq<Update>)
    ensures |r| == |tx.outputs|
    ensures forall i | 0 <= i < |r| :: r[i] == Update(w.outputKey(OutPoint(tx.id, i)), EncodeOutput(tx.outputs[i]))
  {
    seq(|tx.outputs|, (i: nat) requires i < |tx.outputs| =>
      Update(w.outputKey(OutPoint(tx.id, i)), EncodeOutput(tx.outputs[i])))
  }

  /** The inputs are all there and none is named twice: all that is checked of a transaction here. */
  ghost predicate Spendable(u: Utxos, tx: Transaction) {
    Spent(tx) <= u.Keys && Distinct(SpentList(tx))
  }

  ghost function UtxoBook(w: World, b: Book, tx: Transaction): Option<Book> {
    if Spendable(b.utxos, tx) then
      Some(b.(utxos := Applied(b.utxos, tx),
              supply := Filled(Drained(b.supply, b.utxos, tx.inputs), tx.outputs),
              pending := b.pending + LeafUpdates(w, tx),
              leafOf := (b.leafOf - Spent(tx)) + map k | k in CreatedKeys(tx) :: w.outputKey(k),
              markers := b.markers - Spent(tx)))
    else
      None
  }

  ghost function InsertAll(st: Storage, updates: seq<Update>): Storage {
    if updates == [] then st
    else
      var u := updates[|updates| - 1];
      Inserted(InsertAll(st, updates[..|updates| - 1]), u.key, u.value)
  }

  function PayloadGas(payload: seq<int>): nat {
    if payload == [] then 0
    else PayloadGas(payload[..|payload| - 1]) + if payload[|payload| - 1] == 0 then 4 else 16
  }

  /** The 80/20 split of a contract's gas fee. */
  function FeeWitness(totalGasFee: nat): GasFeeWitness {
    GasFeeWitness(totalGasFee, MinerShare(totalGasFee), SaturatingSub(totalGasFee, MinerShare(totalGasFee)))
  }

  /** Whatever the fee, nothing of it is lost and the witness passes its own check; but the miner's part is 80% rounded
      down exactly when the 128-bit product does not wrap around. */
  lemma WitnessSplitsExactlyWhen(totalGasFee: nat)
    ensures WitnessSplits(FeeWitness(totalGasFee))
    ensures FeeWitness(totalGasFee).minerShare + FeeWitness(totalGasFee).fullnodeShare == totalGasFee
    ensures FeeWitness(totalGasFee).minerShare == totalGasFee * MINER_REWARD_PERCENT / 100 <==>
      totalGasFee * MINER_REWARD_PERCENT < TWO_TO_THE_128
    ensures totalGasFee * 80 < 0x1_0000_0000_0000_0000_0000_0000_0000_0000 ==>
      5 * FeeWitness(totalGasFee).minerShare <= 4 * totalGasFee < 5 * FeeWitness(totalGasFee).minerShare + 5
  {
    var product := totalGasFee * MINER_REWARD_PERCENT;
    if product >= TWO_TO_THE_128 {
      assert product % TWO_TO_THE_128 <= product - TWO_TO_THE_128;
    }
  }

  predicate IsPlain(tx: Transaction) {
    tx.executionPayload == [] && tx.contractAddress == None
  }

  ghost function ContractBook(w: World, b: Book, tx: Transaction): Option<Book> {
    if tx.gasLimit < INTRINSIC_GAS + PayloadGas(tx.executionPayload) then None
    else
      match w.execute(tx, TrieState(b.storage, b.marks))
      case Failed => None
      case Ran(gasUsed, calls) =>
        var t := AfterOps(TrieState(b.storage, b.marks), calls);
        UtxoBook(w, b.(storage := t.storage,
                       marks := t.marks,
                       gasFees := b.gasFees + [FeeWitness(SaturatingMul(gasUsed, tx.maxFeePerGas))]), tx)
  }

  ghost function TxBook(w: World, b: Book, tx: Transaction): Option<Book> {
    if IsPlain(tx) then UtxoBook(w, b, tx) else ContractBook(w, b, tx)
  }

  type BookStep = (Book, Transaction) -> Option<Book>

  ghost function Settling(w: World): BookStep {
    (b, tx) => TxBook(w, b, tx)
  }

  /** The books after the transactions in order, or nothing as soon as one fails. */
  ghost function Through(step: BookStep, b: Book, txs: seq<Transaction>): Option<Book> {
    if txs == [] then Some(b)
    else
      var before := Through(step, b, txs[..|txs| - 1]);
      if before.Some? then step(before.value, txs[|txs| - 1]) else None
  }

  lemma {:induction false} FailureStays(step: BookStep, b: Book, txs: seq<Transaction>, n: nat)
    requires n <= |txs| && Through(step, b, txs[..n]).None?
    ensures Through(step, b, txs).None?
    decreases |txs| - n
  {
    if n == |txs| {
      assert txs[..n] == txs;
    } else {
      assert txs[..n + 1][..n] == txs[..n];
      FailureStays(step, b, txs, n + 1);
    }
  }

  lemma ThroughNext(step: BookStep, b: Book, txs: seq<Transaction>, i: nat, before: Book)
    requires i < |txs| && Through(step, b, txs[..i]) == Some(before)
    ensures Through(step, b, txs[..i + 1]) == step(before, txs[i])
    ensures step(before, txs[i]).None? ==> Through(step, b, txs).None?
  {
    assert txs[..i + 1][..i] == txs[..i];
    if step(before, txs[i]).None? {
      FailureStays(step, b, txs, i + 1);
    }
  }

  ghost function TxsBook(w: World, b: Book, txs: seq<Transaction>): Option<Book> {
    Through(Settling(w), b, txs)
  }

  /** Some value to be written reads as an output owned by the burn address. */
  ghost predicate Burns(updates: seq<Update>) {
    exists i :: 0 <= i < |updates| && OwnedByBurnAddress(updates[i].value)
  }

  predicate OwnedByBurnAddress(value: Bytes) {
    DecodeOutput(value).Some? && DecodeOutput(value).value.pubkeyHash == BURN_ADDRESS
  }

  /** The trie after all updates and the supply leaf have been written. */
  ghost function Written(st: Storage, updates: seq<Update>, supply: nat): Storage {
    Inserted(InsertAll(st, updates), SupplyKey(), EncodeSupply(supply))
  }

  /** The whole block, all or nothing. */
  ghost function BlockBook(w: World, b: Book, txs: seq<Transaction>): Option<Book> {
    var after := TxsBook(w, b.(pending := [], gasFees := []), txs);
    if after.None? || Burns(after.value.pending) || after.value.supply > MAX_GLOBAL_SUPPLY then None
    else Some(after.value.(storage := Written(after.value.storage, after.value.pending, after.value.supply)))
  }

  // ----- agreement of the tracked supply, the unspent outputs and the trie

  /** Output digests of these outpoints meet neither each other nor the supply leaf. */
  ghost predicate KeysApart(w: World, ks: set<OutPoint>) {
    (forall k {:trigger w.outputKey(k)} | k in ks :: w.outputKey(k) != SupplyKey()) &&
    forall j, k {:trigger w.outputKey(j), w.outputKey(k)} |
      j in ks && k in ks && w.outputKey(j) == w.outputKey(k) :: j == k
  }

  lemma ApartBelow(w: World, ks: set<OutPoint>, js: set<OutPoint>)
    requires KeysApart(w, ks) && js <= ks
    ensures KeysApart(w, js)
  {
  }

  ghost predicate LeavesHold(w: World, st: Storage, u: Utxos) {
    forall k | k in u :: LeafHolds(w, st, k, u[k])
  }

  ghost predicate LeafHolds(w: World, st: Storage, k: OutPoint, output: TxOutput) {
    Encodable(output) && ValueAt(st, w.outputKey(k)) == Some(EncodeOutput(output))
  }

  lemma InsertedValue(st: Storage, key: Path, value: Bytes, p: Path)
    ensures ValueAt(Inserted(st, key, value), p) == if p == key then Some(value) else ValueAt(st, p)
  {
    assert key in Prefixes(key);
  }

  lemma {:induction false} InsertAllElsewhere(st: Storage, updates: seq<Update>, p: Path)
    requires forall i | 0 <= i < |updates| :: updates[i].key != p
    ensures ValueAt(InsertAll(st, updates), p) == ValueAt(st, p)
    decreases |updates|
  {
    if updates != [] {
      var n := |updates| - 1;
      InsertAllElsewhere(st, updates[..n], p);
      InsertedValue(InsertAll(st, updates[..n]), updates[n].key, updates[n].value, p);
    }
  }

  lemma {:induction false} InsertAllHits(st: Storage, updates: seq<Update>, i: nat)
    requires i < |updates| && forall j | i < j < |updates| :: updates[j].key != updates[i].key
    ensures ValueAt(InsertAll(st, updates), updates[i].key) == Some(updates[i].value)
    decreases |updates|
  {
    var n := |updates| - 1;
    if i < n {
      var front := updates[..n];
      assert front[i] == updates[i] && forall j | i < j < n :: front[j] == updates[j];
      InsertAllHits(st, front, i);
    }
    InsertedValue(InsertAll(st, updates[..n]), updates[n].key, updates[n].value, updates[i].key);
  }

  lemma {:induction false} InsertAllAppends(st: Storage, a: seq<Update>, b: seq<Update>)
    ensures InsertAll(st, a + b) == InsertAll(InsertAll(st, a), b)
    decreases |b|
  {
    if b == [] {
      assert a + b == a;
    } else {
      var front, last := b[..|b| - 1], b[|b| - 1];
      InsertAllAppends(st, a, front);
      InsertAllStep(st, a + front, last);
      InsertAllStep(InsertAll(st, a), front, last);
      assert b == front + [last];
      assert a + b == a + front + [last];
    }
  }

  lemma InsertAllStep(st: Storage, updates: seq<Update>, u: Update)
    ensures InsertAll(st, updates + [u]) == Inserted(InsertAll(st, updates), u.key, u.value)
  {
    assert (updates + [u])[..|updates|] == updates;
  }

  lemma LeafWritten(w: World, st: Storage, tx: Transaction, i: nat)
    requires KeysApart(w, CreatedKeys(tx)) && i < |tx.outputs| && Encodable(tx.outputs[i])
    ensures LeafHolds(w, InsertAll(st, LeafUpdates(w, tx)), OutPoint(tx.id, i), tx.outputs[i])
  {
    var updates := LeafUpdates(w, tx);
    forall j | i < j < |updates|
      ensures updates[j].key != updates[i].key
    {
      assert OutPoint(tx.id, i) in CreatedKeys(tx) && OutPoint(tx.id, j) in CreatedKeys(tx);
    }
    InsertAllHits(st, updates, i);
  }

  lemma LeafKept(w: World, st: Storage, tx: Transaction, k: OutPoint)
    requires KeysApart(w, CreatedKeys(tx) + {k}) && k !in CreatedKeys(tx)
    ensures ValueAt(InsertAll(st, LeafUpdates(w, tx)), w.outputKey(k)) == ValueAt(st, w.outputKey(k))
  {
    var updates := LeafUpdates(w, tx);
    forall j | 0 <= j < |updates|
      ensures updates[j].key != w.outputKey(k)
    {
      assert OutPoint(tx.id, j) in CreatedKeys(tx);
    }
    InsertAllElsewhere(st, updates, w.outputKey(k));
  }

  /** Writing a transaction's leaves keeps every surviving output's leaf and adds the created ones. */
  lemma LeavesFollow(w: World, st: Storage, u: Utxos, tx: Transaction)
    requires KeysApart(w, u.Keys + CreatedKeys(tx)) && LeavesHold(w, st, u)
    requires forall i | 0 <= i < |tx.outputs| :: Encodable(tx.outputs[i])
    ensures LeavesHold(w, InsertAll(st, LeafUpdates(w, tx)), Applied(u, tx))
  {
    ApartBelow(w, u.Keys + CreatedKeys(tx), CreatedKeys(tx));
    forall k | k in Applied(u, tx)
      ensures LeafHolds(w, InsertAll(st, LeafUpdates(w, tx)), k, Applied(u, tx)[k])
    {
      if k in CreatedKeys(tx) {
        assert OutPoint(tx.id, k.index) == k;
        LeafWritten(w, st, tx, k.index);
      } else {
        ApartBelow(w, u.Keys + CreatedKeys(tx), CreatedKeys(tx) + {k});
        LeafKept(w, st, tx, k);
      }
    }
  }

  /** Subtracting the inputs never saturates while the supply covers them. */
  lemma {:induction false} DrainedExactly(supply: nat, u: Utxos, inputs: seq<TxInput>)
    requires InputTotal(u, inputs) <= supply
    ensures Drained(supply, u, inputs) == supply - InputTotal(u, inputs)
    decreases |inputs|
  {
    if inputs != [] {
      DrainedExactly(supply, u, inputs[..|inputs| - 1]);
    }
  }

  lemma {:induction false} FilledExactly(supply: nat, outputs: seq<TxOutput>)
    requires supply + OutputTotal(outputs) <= U128_MAX
    ensures Filled(supply, outputs) == supply + OutputTotal(outputs)
    decreases |outputs|
  {
    if outputs != [] {
      FilledExactly(supply, outputs[..|outputs| - 1]);
    }
  }

  lemma InputsWithinTotal(u: Utxos, tx: Transaction)
    requires Spendable(u, tx)
    ensures InputTotal(u, tx.inputs) <= Total(u)
  {
    InputsLeave(u, tx);
    SumSplits(u, u.Keys - Spent(tx), Spent(tx));
    assert u.Keys - Spent(tx) + Spent(tx) == u.Keys;
  }

  ghost function NextSupply(supply: nat, u: Utxos, tx: Transaction): nat {
    Filled(Drained(supply, u, tx.inputs), tx.outputs)
  }

  /** The supply step is exact, and the supply goes on equalling the total of the set, if and only if
      what the transaction overwrites has no value. */
  lemma SupplyFollows(supply: nat, u: Utxos, tx: Transaction)
    requires supply == Total(u) && Spendable(u, tx) && supply + OutputTotal(tx.outputs) <= U128_MAX
    ensures NextSupply(supply, u, tx) == supply - InputTotal(u, tx.inputs) + OutputTotal(tx.outputs)
    ensures NextSupply(supply, u, tx) == Total(Applied(u, tx)) <==> SumOver(u, Overwritten(u, tx)) == 0
  {
    ValueBalance(u, tx);
    InputsWithinTotal(u, tx);
    DrainedExactly(supply, u, tx.inputs);
    FilledExactly(supply - InputTotal(u, tx.inputs), tx.outputs);
  }

  // ----- the supply, over every run

  ghost function BlockOutputs(txs: seq<Transaction>): nat {
    if txs == [] then 0 else BlockOutputs(txs[..|txs| - 1]) + OutputTotal(txs[|txs| - 1].outputs)
  }

  /** Contract or not, a settled transaction moves the books' set as the ledger does and the supply by what it says. */
  lemma TxSettles(w: World, b: Book, tx: Transaction)
    requires TxBook(w, b, tx).Some?
    ensures Spendable(b.utxos, tx)
    ensures TxBook(w, b, tx).value.utxos == Applied(b.utxos, tx)
    ensures TxBook(w, b, tx).value.supply == NextSupply(b.supply, b.utxos, tx)
    ensures TxBook(w, b, tx).value.pending == b.pending + LeafUpdates(w, tx)
  {
  }

  /** It drops what it spends from the index and the prune markers, and indexes what it creates. */
  lemma TxIndexes(w: World, b: Book, tx: Transaction)
    requires TxBook(w, b, tx).Some?
    ensures TxBook(w, b, tx).value.markers == b.markers - Spent(tx)
    ensures TxBook(w, b, tx).value.leafOf == (b.leafOf - Spent(tx)) + map k | k in CreatedKeys(tx) :: w.outputKey(k)
  {
  }

  // ----- gas

  /** Where the payload's non-zero bytes are. */
  function NonZeroBytes(payload: seq<int>): set<nat> {
    set i: nat | i < |payload| && payload[i] != 0
  }

  lemma {:induction false} PayloadGasMeans(payload: seq<int>)
    ensures PayloadGas(payload) == 4 * |payload| + 12 * |NonZeroBytes(payload)|
    decreases |payload|
  {
    if payload != [] {
      var n: nat := |payload| - 1;
      PayloadGasMeans(payload[..n]);
      assert NonZeroBytes(payload) == NonZeroBytes(payload[..n]) + if payload[n] != 0 then {n} else {};
    } else {
      assert NonZeroBytes(payload) == {};
    }
  }

  /** A transaction with a payload or a contract address settles exactly when its gas limit covers 21000 and 4 gas for
      each zero and 16 for each other byte of the payload, its run succeeds, and its inputs are there, each once. It
      leaves the trie where its calls lead, and one witness more, for the gas used at the price offered. */
  lemma ContractSettlesExactlyWhen(w: World, b: Book, tx: Transaction)
    requires tx.executionPayload != [] || tx.contractAddress.Some?
    ensures TxBook(w, b, tx).Some? <==>
      tx.gasLimit >= 21_000 + 4 * |tx.executionPayload| + 12 * |NonZeroBytes(tx.executionPayload)| &&
      w.execute(tx, TrieState(b.storage, b.marks)).Ran? && Spent(tx) <= b.utxos.Keys && Distinct(SpentList(tx))
    ensures TxBook(w, b, tx).Some? ==>
      var after, run := TxBook(w, b, tx).value, w.execute(tx, TrieState(b.storage, b.marks));
      TrieState(after.storage, after.marks) == AfterOps(TrieState(b.storage, b.marks), run.calls) &&
      |after.gasFees| == |b.gasFees| + 1 && after.gasFees[..|b.gasFees|] == b.gasFees &&
      after.gasFees[|b.gasFees|] == FeeWitness(SaturatingMul(run.gasUsed, tx.maxFeePerGas))
  {
    PayloadGasMeans(tx.executionPayload);
  }

  /** Any other settles exactly when its inputs are there, each once, and leaves trie and witnesses alone. */
  lemma PlainSettlesExactlyWhen(w: World, b: Book, tx: Transaction)
    requires tx.executionPayload == [] && tx.contractAddress.None?
    ensures TxBook(w, b, tx).Some? <==> Spent(tx) <= b.utxos.Keys && Distinct(SpentList(tx))
    ensures TxBook(w, b, tx).Some? ==>
      var after := TxBook(w, b, tx).value;
      after.storage == b.storage && after.marks == b.marks && after.gasFees == b.gasFees
  {
  }

  ghost predicate GasCovered(tx: Transaction) {
    tx.executionPayload != [] || tx.contractAddress.Some? ==>
      tx.gasLimit >= 21_000 + 4 * |tx.executionPayload| + 12 * |NonZeroBytes(tx.executionPayload)|
  }

  /** The contract transactions of a block, by index. */
  function Contracts(txs: seq<Transaction>): set<nat> {
    set i: nat | i < |txs| && (txs[i].executionPayload != [] || txs[i].contractAddress.Some?)
  }

  lemma TxGas(w: World, b: Book, tx: Transaction)
    requires TxBook(w, b, tx).Some?
    ensures GasCovered(tx)
    ensures |TxBook(w, b, tx).value.gasFees| == |b.gasFees| + if IsPlain(tx) then 0 else 1
  {
    if IsPlain(tx) {
      PlainSettlesExactlyWhen(w, b, tx);
    } else {
      ContractSettlesExactlyWhen(w, b, tx);
    }
  }

  lemma OneMoreContract(txs: seq<Transaction>)
    requires txs != []
    ensures |Contracts(txs)| == |Contracts(txs[..|txs| - 1])| + if IsPlain(txs[|txs| - 1]) then 0 else 1
  {
    var n: nat := |txs| - 1;
    assert Contracts(txs) == Contracts(txs[..n]) + if IsPlain(txs[n]) then {} else {n};
  }

  lemma {:induction false} TxsGas(w: World, b: Book, txs: seq<Transaction>)
    requires TxsBook(w, b, txs).Some?
    ensures forall i | 0 <= i < |txs| :: GasCovered(txs[i])
    ensures |TxsBook(w, b, txs).value.gasFees| == |b.gasFees| + |Contracts(txs)|
    decreases |txs|
  {
    if txs != [] {
      var n := |txs| - 1;
      var front := txs[..n];
      TxsGas(w, b, front);
      TxGas(w, TxsBook(w, b, front).value, txs[n]);
      OneMoreContract(txs);
      forall i | 0 <= i < |txs|
        ensures GasCovered(txs[i])
      {
        if i < n {
          assert GasCovered(front[i]);
        }
      }
    } else {
      assert Contracts(txs) == {};
    }
  }

  /** Every contract transaction of an accepted block had the gas, and left one witness. */
  lemma BlockGas(w: World, b: Book, txs: seq<Transaction>)
    requires BlockBook(w, b, txs).Some?
    ensures forall i | 0 <= i < |txs| && (txs[i].executionPayload != [] || txs[i].contractAddress.Some?) ::
      txs[i].gasLimit >= 21_000 + 4 * |txs[i].executionPayload| + 12 * |NonZeroBytes(txs[i].executionPayload)|
    ensures |BlockBook(w, b, txs).value.gasFees| == |Contracts(txs)|
  {
    TxsGas(w, b.(pending := [], gasFees := []), txs);
    assert forall i | 0 <= i < |txs| :: GasCovered(txs[i]);
  }

  lemma SupplyWithLoss(supply: nat, u: Utxos, tx: Transaction)
    requires supply >= Total(u) && Spendable(u, tx) && supply + OutputTotal(tx.outputs) <= U128_MAX
    ensures NextSupply(supply, u, tx) <= supply + OutputTotal(tx.outputs)
    ensures NextSupply(supply, u, tx) - Total(Applied(u, tx)) == supply - Total(u) + SumOver(u, Overwritten(u, tx))
  {
    ValueBalance(u, tx);
    InputsWithinTotal(u, tx);
    DrainedExactly(supply, u, tx.inputs);
    FilledExactly(supply - InputTotal(u, tx.inputs), tx.outputs);
  }

  lemma {:induction false} TxsSupply(w: World, b: Book, txs: seq<Transaction>)
    requires b.supply >= Total(b.utxos) && b.supply + BlockOutputs(txs) <= U128_MAX && TxsBook(w, b, txs).Some?
    ensures
      var after := TxsBook(w, b, txs).value;
      after.utxos == Forward(b.utxos, txs) && after.supply <= b.supply + BlockOutputs(txs) &&
      after.supply - Total(after.utxos) == b.supply - Total(b.utxos) + Lost(b.utxos, txs)
    decreases |txs|
  {
    if txs != [] {
      var earlier, tx := txs[..|txs| - 1], txs[|txs| - 1];
      TxsSupply(w, b, earlier);
      var before := TxsBook(w, b, earlier).value;
      TxSettles(w, before, tx);
      SupplyWithLoss(before.supply, before.utxos, tx);
    }
  }

  /** The tracked supply is the value of the set and of what was written over, and is within the cap. */
  ghost predicate SupplyExplained(b: Book, lost: nat) {
    b.supply == Total(b.utxos) + lost && b.supply <= MAX_GLOBAL_SUPPLY
  }

  ghost predicate SupplyLeafHolds(b: Book) {
    ValueAt(b.storage, SupplyKey()).Some? && DecodeSupply(ValueAt(b.storage, SupplyKey()).value) == b.supply
  }

  lemma CapFitsLeaf(supply: nat)
    requires supply <= MAX_GLOBAL_SUPPLY
    ensures DecodeSupply(EncodeSupply(supply)) == supply
  {
    assert Power256(8) == 0x1_0000_0000_0000_0000 by {
      assert Power256(4) == 0x1_0000_0000;
    }
    assert Power256(12) >= Power256(8);
    assert Power256(SUPPLY_WIDTH) >= Power256(12);
    SupplyRoundTrip(supply);
  }

  /** Small enough for the source's 128-bit counters not to saturate. */
  ghost predicate CountersSuffice(txs: seq<Transaction>) {
    MAX_GLOBAL_SUPPLY + BlockOutputs(txs) <= U128_MAX
  }

  /** An accepted block, contracts included, accounts for every unit of the supply and stores it in the supply leaf. */
  lemma BlockSupply(w: World, b: Book, txs: seq<Transaction>, lost: nat)
    requires SupplyExplained(b, lost) && CountersSuffice(txs) && BlockBook(w, b, txs).Some?
    ensures BlockBook(w, b, txs).value.utxos == Forward(b.utxos, txs)
    ensures SupplyExplained(BlockBook(w, b, txs).value, lost + Lost(b.utxos, txs))
    ensures SupplyLeafHolds(BlockBook(w, b, txs).value)
  {
    var start := b.(pending := [], gasFees := []);
    TxsSupply(w, start, txs);
    var after := TxsBook(w, start, txs).value;
    InsertedValue(InsertAll(after.storage, after.pending), SupplyKey(), EncodeSupply(after.supply), SupplyKey());
    CapFitsLeaf(after.supply);
  }

  /** The books after a block was offered: a refused block changes nothing. */
  ghost function NextBook(w: World, b: Book, txs: seq<Transaction>): Book {
    if BlockBook(w, b, txs).Some? then BlockBook(w, b, txs).value else b
  }

  ghost function EmptyBook(start: TrieState): Book {
    Book(map[], 0, [], start.storage, start.marks, map[], map[], [])
  }

  /** The books after blocks were offered one by one to an empty ledger. */
  ghost function Ledgered(w: World, start: TrieState, blocks: seq<seq<Transaction>>): Book {
    if blocks == [] then EmptyBook(start)
    else NextBook(w, Ledgered(w, start, blocks[..|blocks| - 1]), blocks[|blocks| - 1])
  }

  /** Value destroyed by the accepted blocks of a run. */
  ghost function LostIn(w: World, start: TrieState, blocks: seq<seq<Transaction>>): nat {
    if blocks == [] then 0
    else
      var b, txs := Ledgered(w, start, blocks[..|blocks| - 1]), blocks[|blocks| - 1];
      LostIn(w, start, blocks[..|blocks| - 1]) + if BlockBook(w, b, txs).Some? then Lost(b.utxos, txs) else 0
  }

  /** Over every run of blocks, refused ones and contracts included, the tracked supply is within the cap and
      exceeds the value of the set by exactly what was written over: they agree if and only if nothing of value was.
      Once a block has been accepted the supply decodes from the supply leaf. */
  lemma {:induction false} RunSupply(w: World, start: TrieState, blocks: seq<seq<Transaction>>)
    requires forall i | 0 <= i < |blocks| :: CountersSuffice(blocks[i])
    ensures SupplyExplained(Ledgered(w, start, blocks), LostIn(w, start, blocks))
    ensures Ledgered(w, start, blocks) == EmptyBook(start) || SupplyLeafHolds(Ledgered(w, start, blocks))
    decreases |blocks|
  {
    if blocks != [] {
      var n := |blocks| - 1;
      RunSupply(w, start, blocks[..n]);
      var b := Ledgered(w, start, blocks[..n]);
      if BlockBook(w, b, blocks[n]).Some? {
        BlockSupply(w, b, blocks[n], LostIn(w, start, blocks[..n]));
      }
    }
  }

  // ----- the index of leaves

  /** The index knows the leaf of every unspent output, and no other. */
  ghost predicate Indexed(w: World, b: Book) {
    b.leafOf.Keys == b.utxos.Keys && forall k | k in b.leafOf :: b.leafOf[k] == w.outputKey(k)
  }

  lemma {:induction false} TxsIndexed(w: World, b: Book, txs: seq<Transaction>)
    requires Indexed(w, b) && TxsBook(w, b, txs).Some?
    ensures Indexed(w, TxsBook(w, b, txs).value)
    decreases |txs|
  {
    if txs != [] {
      var n := |txs| - 1;
      TxsIndexed(w, b, txs[..n]);
      TxSettles(w, TxsBook(w, b, txs[..n]).value, txs[n]);
      TxIndexes(w, TxsBook(w, b, txs[..n]).value, txs[n]);
    }
  }

  /** Over every run of blocks, contracts included, the index holds the leaf key of exactly the unspent outputs. */
  lemma {:induction false} RunIndexed(w: World, start: TrieState, blocks: seq<seq<Transaction>>)
    ensures Ledgered(w, start, blocks).leafOf.Keys == Ledgered(w, start, blocks).utxos.Keys
    ensures forall k | k in Ledgered(w, start, blocks).leafOf ::
      Ledgered(w, start, blocks).leafOf[k] == w.outputKey(k)
    decreases |blocks|
  {
    if blocks != [] {
      var n := |blocks| - 1;
      RunIndexed(w, start, blocks[..n]);
      var b := Ledgered(w, start, blocks[..n]);
      if BlockBook(w, b, blocks[n]).Some? {
        TxsIndexed(w, b.(pending := [], gasFees := []), blocks[n]);
      }
    }
  }

  // ----- the burn address

  lemma BurnedIsEncoded(output: TxOutput)
    requires Encodable(output)
    ensures OwnedByBurnAddress(EncodeOutput(output)) <==> output.pubkeyHash == BURN_ADDRESS
  {
    OutputRoundTrip(output);
  }

  /** The ledger's burn check, against a digest it is given, and the trie's, against the zero bytes, refuse the same
      outputs if and only if that digest is the zero bytes. */
  lemma BurnChecksAgree(burnDigest: Hash)
    ensures (forall output: TxOutput | Encodable(output) ::
      (output.pubkeyHash == burnDigest <==> OwnedByBurnAddress(EncodeOutput(output)))) <==> burnDigest == 0
  {
    forall output: TxOutput | Encodable(output)
      ensures OwnedByBurnAddress(EncodeOutput(output)) <==> output.pubkeyHash == BURN_ADDRESS
    {
      BurnedIsEncoded(output);
    }
    var paysDigest := TxOutput(0, burnDigest);
    assert Encodable(paysDigest);
    assert paysDigest.pubkeyHash == burnDigest;
  }

  /** No unspent output is owned by the burn address, the outputs whose leaves are pending excepted. */
  ghost predicate UnburnedButPending(b: Book) {
    forall k | k in b.utxos ::
      b.utxos[k].pubkeyHash != BURN_ADDRESS ||
      exists i :: 0 <= i < |b.pending| && b.pending[i].value == EncodeOutput(b.utxos[k]) && Encodable(b.utxos[k])
  }

  ghost predicate EncodableBlock(txs: seq<Transaction>) {
    forall i, j | 0 <= i < |txs| && 0 <= j < |txs[i].outputs| :: Encodable(txs[i].outputs[j])
  }

  lemma TxUnburned(w: World, b: Book, tx: Transaction)
    requires UnburnedButPending(b) && TxBook(w, b, tx).Some?
    requires forall j | 0 <= j < |tx.outputs| :: Encodable(tx.outputs[j])
    ensures UnburnedButPending(TxBook(w, b, tx).value)
  {
    TxSettles(w, b, tx);
    var after := TxBook(w, b, tx).value;
    forall k | k in after.utxos && after.utxos[k].pubkeyHash == BURN_ADDRESS
      ensures exists i :: 0 <= i < |after.pending| && after.pending[i].value == EncodeOutput(after.utxos[k]) &&
                          Encodable(after.utxos[k])
    {
      if k in CreatedKeys(tx) {
        assert after.pending[|b.pending| + k.index] == LeafUpdates(w, tx)[k.index];
      } else {
        var i :| 0 <= i < |b.pending| && b.pending[i].value == EncodeOutput(b.utxos[k]) && Encodable(b.utxos[k]);
        assert after.pending[i] == b.pending[i];
      }
    }
  }

  lemma {:induction false} TxsUnburned(w: World, b: Book, txs: seq<Transaction>)
    requires UnburnedButPending(b) && EncodableBlock(txs) && TxsBook(w, b, txs).Some?
    ensures UnburnedButPending(TxsBook(w, b, txs).value)
    decreases |txs|
  {
    if txs != [] {
      var n := |txs| - 1;
      TxsUnburned(w, b, txs[..n]);
      TxUnburned(w, TxsBook(w, b, txs[..n]).value, txs[n]);
    }
  }

  ghost predicate Unburned(u: Utxos) {
    forall k | k in u :: u[k].pubkeyHash != BURN_ADDRESS
  }

  lemma BlockUnburned(w: World, b: Book, txs: seq<Transaction>)
    requires Unburned(b.utxos) && EncodableBlock(txs) && BlockBook(w, b, txs).Some?
    ensures Unburned(BlockBook(w, b, txs).value.utxos)
  {
    var start := b.(pending := [], gasFees := []);
    TxsUnburned(w, start, txs);
    var after := TxsBook(w, start, txs).value;
    forall k | k in after.utxos
      ensures after.utxos[k].pubkeyHash != BURN_ADDRESS
    {
      if after.utxos[k].pubkeyHash == BURN_ADDRESS {
        BurnedIsEncoded(after.utxos[k]);
      }
    }
  }

  /** Over every run of blocks, contracts included, no unspent output is owned by the burn address: the trie's check
      turns the block away whatever the ledger's lets through. */
  lemma {:induction false} RunUnburned(w: World, start: TrieState, blocks: seq<seq<Transaction>>)
    requires forall i | 0 <= i < |blocks| :: EncodableBlock(blocks[i])
    ensures Unburned(Ledgered(w, start, blocks).utxos)
    ensures forall k | k in Ledgered(w, start, blocks).utxos :: Ledgered(w, start, blocks).utxos[k].pubkeyHash != 0
    decreases |blocks|
  {
    if blocks != [] {
      var n := |blocks| - 1;
      RunUnburned(w, start, blocks[..n]);
      var b := Ledgered(w, start, blocks[..n]);
      if BlockBook(w, b, blocks[n]).Some? {
        BlockUnburned(w, b, blocks[n]);
      }
    }
  }

  // ----- the leaves, over every run of plain blocks

  ghost predicate PlainBlock(txs: seq<Transaction>) {
    forall i | 0 <= i < |txs| :: IsPlain(txs[i]) && forall j | 0 <= j < |txs[i].outputs| :: Encodable(txs[i].outputs[j])
  }

  ghost function BlockKeys(txs: seq<Transaction>): set<OutPoint> {
    if txs == [] then {} else BlockKeys(txs[..|txs| - 1]) + CreatedKeys(txs[|txs| - 1])
  }

  /** The outpoints a run can create. */
  ghost function RunKeys(blocks: seq<seq<Transaction>>): set<OutPoint> {
    if blocks == [] then {} else RunKeys(blocks[..|blocks| - 1]) + BlockKeys(blocks[|blocks| - 1])
  }

  /** In the middle of a block, when leaves are still waiting to be written. */
  ghost predicate LeavesPending(w: World, b: Book) {
    LeavesHold(w, InsertAll(b.storage, b.pending), b.utxos)
  }

  lemma {:induction false} TxsLeaves(w: World, b: Book, txs: seq<Transaction>)
    requires LeavesPending(w, b) && PlainBlock(txs) && TxsBook(w, b, txs).Some?
    requires KeysApart(w, b.utxos.Keys + BlockKeys(txs))
    ensures
      var after := TxsBook(w, b, txs).value;
      LeavesPending(w, after) && after.utxos.Keys <= b.utxos.Keys + BlockKeys(txs) &&
      after.storage == b.storage && after.marks == b.marks
    decreases |txs|
  {
    if txs != [] {
      var earlier, tx := txs[..|txs| - 1], txs[|txs| - 1];
      ApartBelow(w, b.utxos.Keys + BlockKeys(txs), b.utxos.Keys + BlockKeys(earlier));
      assert TxsBook(w, b, earlier).Some?;
      TxsLeaves(w, b, earlier);
      var before := TxsBook(w, b, earlier).value;
      assert IsPlain(tx);
      ApartBelow(w, b.utxos.Keys + BlockKeys(txs), before.utxos.Keys + CreatedKeys(tx));
      TxLeaves(w, before, tx);
    }
  }

  lemma TxLeaves(w: World, b: Book, tx: Transaction)
    requires LeavesPending(w, b) && IsPlain(tx) && TxBook(w, b, tx).Some?
    requires KeysApart(w, b.utxos.Keys + CreatedKeys(tx))
    requires forall j | 0 <= j < |tx.outputs| :: Encodable(tx.outputs[j])
    ensures
      var after := TxBook(w, b, tx).value;
      LeavesPending(w, after) && after.utxos == Applied(b.utxos, tx) && after.storage == b.storage &&
      after.marks == b.marks
  {
    InsertAllAppends(b.storage, b.pending, LeafUpdates(w, tx));
    LeavesFollow(w, InsertAll(b.storage, b.pending), b.utxos, tx);
  }

  /** An accepted plain block writes the leaf of every unspent output and marks nothing. */
  lemma BlockLeaves(w: World, b: Book, txs: seq<Transaction>)
    requires LeavesHold(w, b.storage, b.utxos) && PlainBlock(txs) && KeysApart(w, b.utxos.Keys + BlockKeys(txs))
    requires BlockBook(w, b, txs).Some?
    ensures
      var after := BlockBook(w, b, txs).value;
      LeavesHold(w, after.storage, after.utxos) && after.utxos.Keys <= b.utxos.Keys + BlockKeys(txs) &&
      after.marks == b.marks
  {
    var start := b.(pending := [], gasFees := []);
    TxsLeaves(w, start, txs);
    var after := TxsBook(w, start, txs).value;
    SupplyLeafApart(w, InsertAll(after.storage, after.pending), after.utxos, EncodeSupply(after.supply));
  }

  lemma SupplyLeafApart(w: World, st: Storage, u: Utxos, encoded: Bytes)
    requires LeavesHold(w, st, u) && forall k {:trigger w.outputKey(k)} | k in u :: w.outputKey(k) != SupplyKey()
    ensures LeavesHold(w, Inserted(st, SupplyKey(), encoded), u)
  {
    forall k | k in u
      ensures LeafHolds(w, Inserted(st, SupplyKey(), encoded), k, u[k])
    {
      assert LeafHolds(w, st, k, u[k]);
      InsertedValue(st, SupplyKey(), encoded, w.outputKey(k));
    }
  }

  /** Over every run of plain blocks whose created outpoints have distinct leaf keys, every unspent output has its leaf
      and nothing is marked that was not marked at the start. */
  lemma {:induction false} RunLeaves(w: World, start: TrieState, blocks: seq<seq<Transaction>>)
    requires KeysApart(w, RunKeys(blocks)) && forall i | 0 <= i < |blocks| :: PlainBlock(blocks[i])
    ensures
      var b := Ledgered(w, start, blocks);
      LeavesHold(w, b.storage, b.utxos) && b.utxos.Keys <= RunKeys(blocks) && b.marks == start.marks
    decreases |blocks|
  {
    if blocks != [] {
      var n := |blocks| - 1;
      ApartBelow(w, RunKeys(blocks), RunKeys(blocks[..n]));
      RunLeaves(w, start, blocks[..n]);
      var b := Ledgered(w, start, blocks[..n]);
      ApartBelow(w, RunKeys(blocks), b.utxos.Keys + BlockKeys(blocks[n]));
      if BlockBook(w, b, blocks[n]).Some? {
        BlockLeaves(w, b, blocks[n]);
      }
    }
  }

  /** Supply, set and tree agree over every run of plain blocks that writes over nothing of value: on a fresh trie each
      unspent output is read back from its leaf and decodes to itself. */
  lemma RunAgrees(w: World, start: TrieState, blocks: seq<seq<Transaction>>)
    requires KeysApart(w, RunKeys(blocks)) && start.marks == {}
    requires forall i | 0 <= i < |blocks| :: PlainBlock(blocks[i]) && CountersSuffice(blocks[i])
    ensures
      var b := Ledgered(w, start, blocks);
      (b.supply == Total(b.utxos) <==> LostIn(w, start, blocks) == 0) && b.supply <= MAX_GLOBAL_SUPPLY &&
      forall k {:trigger w.outputKey(k)} | k in b.utxos :: ReadsAs(b, w.outputKey(k), b.utxos[k])
  {
    RunSupply(w, start, blocks);
    RunLeaves(w, start, blocks);
    LeavesRead(w, Ledgered(w, start, blocks));
  }

  lemma LeavesRead(w: World, b: Book)
    requires LeavesHold(w, b.storage, b.utxos) && b.marks == {}
    ensures forall k {:trigger w.outputKey(k)} | k in b.utxos :: ReadsAs(b, w.outputKey(k), b.utxos[k])
  {
    forall k | k in b.utxos
      ensures ReadsAs(b, w.outputKey(k), b.utxos[k])
    {
      assert LeafHolds(w, b.storage, k, b.utxos[k]);
      OutputRoundTrip(b.utxos[k]);
    }
  }

  ghost predicate ReadsAs(b: Book, leaf: Path, output: TxOutput) {
    var reading := ReadingAt(b.storage, b.marks, leaf);
    reading.Value? && reading.value.Some? && DecodeOutput(reading.value.value) == Some(output)
  }

  /** The hypotheses can be met: for every encodable output not owned by the burn address and within the cap, a world
      and a block that creates it. */
  lemma SomeRun(start: TrieState, coinbase: Transaction) returns (w: World)
    requires coinbase.inputs == [] && |coinbase.outputs| == 1 && Encodable(coinbase.outputs[0]) && IsPlain(coinbase)
    requires coinbase.outputs[0].value <= MAX_GLOBAL_SUPPLY && coinbase.outputs[0].pubkeyHash != BURN_ADDRESS
    ensures ValidWorld(w) && KeysApart(w, RunKeys([[coinbase]])) && PlainBlock([coinbase])
    ensures CountersSuffice([coinbase])
    ensures Ledgered(w, start, [[coinbase]]).utxos == map[OutPoint(coinbase.id, 0) := coinbase.outputs[0]]
  {
    var key: Path := seq(KEY_SIZE, _ => 1);
    assert key[0] != SupplyKey()[0];
    w := World((tx, t) => Failed, k => key);
    OneOutpoint(coinbase);
    OneBlock(w, start, coinbase);
  }

  lemma OneOutpoint(coinbase: Transaction)
    requires |coinbase.outputs| == 1
    ensures RunKeys([[coinbase]]) == {OutPoint(coinbase.id, 0)} && BlockOutputs([coinbase]) == coinbase.outputs[0].value
    ensures Created(coinbase) == map[OutPoint(coinbase.id, 0) := coinbase.outputs[0]]
  {
    assert [coinbase][..0] == [] && [[coinbase]][..0] == [] && coinbase.outputs[..0] == [];
    assert CreatedKeys(coinbase) == {OutPoint(coinbase.id, 0)};
    assert BlockKeys([]) == {} && RunKeys([]) == {} && BlockOutputs([]) == 0 && OutputTotal([]) == 0;
    assert BlockKeys([coinbase]) == BlockKeys([]) + CreatedKeys(coinbase);
    assert RunKeys([[coinbase]]) == RunKeys([]) + BlockKeys([coinbase]);
  }

  lemma OneStep(step: BookStep, b: Book, tx: Transaction)
    ensures Through(step, b, [tx]) == step(b, tx)
  {
    assert [tx][..0] == [];
  }

  lemma OneOffer(w: World, start: TrieState, txs: seq<Transaction>)
    ensures Ledgered(w, start, [txs]) == NextBook(w, EmptyBook(start), txs)
  {
    assert [txs][..0] == [];
  }

  lemma OneOutput(outputs: seq<TxOutput>)
    requires |outputs| == 1 && outputs[0].value <= MAX_GLOBAL_SUPPLY
    ensures Filled(0, outputs) == outputs[0].value
  {
    assert outputs[..0] == [] && Filled(0, []) == 0;
  }

  lemma NothingBurns(w: World, tx: Transaction)
    requires |tx.outputs| == 1 && Encodable(tx.outputs[0]) && tx.outputs[0].pubkeyHash != BURN_ADDRESS
    ensures !Burns(LeafUpdates(w, tx))
  {
    OutputRoundTrip(tx.outputs[0]);
  }

  lemma CoinbaseIsSpendable(coinbase: Transaction)
    requires coinbase.inputs == []
    ensures Spendable(map[], coinbase) && Applied(map[], coinbase) == Created(coinbase)
  {
    assert Spent(coinbase) == {} && SpentList(coinbase) == [];
  }

  lemma CoinbaseSettles(w: World, b: Book, coinbase: Transaction)
    requires coinbase.inputs == [] && |coinbase.outputs| == 1 && IsPlain(coinbase)
    requires b.utxos == map[] && b.supply == 0 && b.pending == [] && coinbase.outputs[0].value <= MAX_GLOBAL_SUPPLY
    ensures TxBook(w, b, coinbase).Some?
    ensures
      var after := TxBook(w, b, coinbase).value;
      after.utxos == Created(coinbase) && after.supply == coinbase.outputs[0].value &&
      after.pending == LeafUpdates(w, coinbase)
  {
    CoinbaseIsSpendable(coinbase);
    OneOutput(coinbase.outputs);
    TxSettles(w, b, coinbase);
    assert b.pending + LeafUpdates(w, coinbase) == LeafUpdates(w, coinbase);
  }

  lemma OneBlock(w: World, start: TrieState, coinbase: Transaction)
    requires coinbase.inputs == [] && |coinbase.outputs| == 1 && Encodable(coinbase.outputs[0]) && IsPlain(coinbase)
    requires coinbase.outputs[0].value <= MAX_GLOBAL_SUPPLY && coinbase.outputs[0].pubkeyHash != BURN_ADDRESS
    ensures Ledgered(w, start, [[coinbase]]).utxos == Created(coinbase)
  {
    var b := EmptyBook(start).(pending := [], gasFees := []);
    CoinbaseSettles(w, b, coinbase);
    NothingBurns(w, coinbase);
    OneStep(Settling(w), b, coinbase);
    OneOffer(w, start, [coinbase]);
  }
}
