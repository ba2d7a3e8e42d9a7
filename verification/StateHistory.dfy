/** What blocks, rollbacks and restores make of the state manager, as values, and what the snapshots record. */
module StateHistory {
  import opened Commitments
  import opened TrieModel
  import opened TriePruning
  import opened TrieProofs
  import opened Ledger
  import opened Fees
  import opened Codec
  import opened StateBooks

  datatype StateSnapshot = StateSnapshot(height: nat, root: Digest, totalSupply: nat, gasFees: seq<GasFeeWitness>)

  /** The books, and for every height its snapshot and its store. */
  datatype History = History(book: Book, snapshots: seq<StateSnapshot>, storages: seq<Storage>)

  datatype Call = Apply(txs: seq<Transaction>) | RollBack(target: nat) | RestoreTo(root: Digest, height: nat)

  /** Entry `i` of each stack is for height `i`: its root is the root of the store kept beside it; its supply is what
      the supply leaf of that store decodes to, and at height 0 nothing. */
  ghost predicate Stacked(s: Scheme, height: nat, snapshots: seq<StateSnapshot>, storages: seq<Storage>) {
    |snapshots| == height + 1 && |storages| == height + 1 &&
    (forall i | 0 <= i <= height ::
      snapshots[i].height == i && [] in storages[i] && snapshots[i].root == Root(s, storages[i])) &&
    snapshots[0].totalSupply == 0 && snapshots[0].gasFees == [] &&
    forall i | 0 < i <= height :: StoresSupply(storages[i], snapshots[i].totalSupply)
  }

  ghost predicate StoresSupply(st: Storage, supply: nat) {
    ValueAt(st, SupplyKey()).Some? && DecodeSupply(ValueAt(st, SupplyKey()).value) == supply
  }

  ghost predicate Consistent(s: Scheme, h: History) {
    |h.snapshots| > 0 && Stacked(s, |h.snapshots| - 1, h.snapshots, h.storages) && [] in h.book.storage
  }

  /** One call. A refused block, a height never reached and an unknown snapshot change nothing. */
  ghost function After(s: Scheme, w: World, h: History, call: Call): History
    requires |h.snapshots| == |h.storages|
  {
    match call
    case Apply(txs) =>
      var book := BlockBook(w, h.book, txs);
      if book.None? then h
      else
        History(book.value,
                h.snapshots + [StateSnapshot(|h.snapshots|, Root(s, book.value.storage), book.value.supply,
                                             book.value.gasFees)],
                h.storages + [book.value.storage])
    case RollBack(target) =>
      if target >= |h.snapshots| then h
      else
        var kept := h.snapshots[target];
        History(h.book.(storage := h.storages[target], marks := {}, supply := kept.totalSupply,
                        gasFees := kept.gasFees),
                h.snapshots[..target + 1], h.storages[..target + 1])
    case RestoreTo(root, height) =>
      if height >= |h.snapshots| || h.snapshots[height].root != root then h
      else
        History(h.book.(storage := h.storages[height], marks := {}),
                h.snapshots[..height + 1], h.storages[..height + 1])
  }

  // ----- what every call keeps

  /** An accepted block's store holds the supply it ends with. */
  lemma AcceptedStoresSupply(w: World, b: Book, txs: seq<Transaction>)
    requires BlockBook(w, b, txs).Some?
    ensures StoresSupply(BlockBook(w, b, txs).value.storage, BlockBook(w, b, txs).value.supply)
  {
    var after := TxsBook(w, b.(pending := [], gasFees := []), txs).value;
    InsertedValue(InsertAll(after.storage, after.pending), SupplyKey(), EncodeSupply(after.supply), SupplyKey());
    CapFitsLeaf(after.supply);
  }

  lemma {:induction false} CallsKeepRoot(t: TrieState, ops: seq<TrieOp>)
    requires [] in t.storage && ValidOps(ops)
    ensures [] in AfterOps(t, ops).storage
    decreases |ops|
  {
    if ops != [] {
      var n := |ops| - 1;
      CallsKeepRoot(t, ops[..n]);
      var before := AfterOps(t, ops[..n]);
      if ops[n].Forget? {
        PathFromKeepsOthers(ops[n].key, CutFrom(before.storage, before.marks, ops[n].key, |ops[n].key|));
      }
    }
  }

  lemma {:induction false} WritesKeepRoot(st: Storage, updates: seq<Update>)
    requires [] in st
    ensures [] in InsertAll(st, updates)
    decreases |updates|
  {
    if updates != [] {
      WritesKeepRoot(st, updates[..|updates| - 1]);
    }
  }

  lemma TxKeepsRoot(w: World, b: Book, tx: Transaction)
    requires ValidWorld(w) && [] in b.storage && TxBook(w, b, tx).Some?
    ensures [] in TxBook(w, b, tx).value.storage
  {
    if IsPlain(tx) {
      PlainSettlesExactlyWhen(w, b, tx);
    } else {
      ContractSettlesExactlyWhen(w, b, tx);
      CallsKeepRoot(TrieState(b.storage, b.marks), w.execute(tx, TrieState(b.storage, b.marks)).calls);
    }
  }

  lemma {:induction false} TxsKeepRoot(w: World, b: Book, txs: seq<Transaction>)
    requires ValidWorld(w) && [] in b.storage && TxsBook(w, b, txs).Some?
    ensures [] in TxsBook(w, b, txs).value.storage
    decreases |txs|
  {
    if txs != [] {
      var n := |txs| - 1;
      TxsKeepRoot(w, b, txs[..n]);
      TxKeepsRoot(w, TxsBook(w, b, txs[..n]).value, txs[n]);
    }
  }

  lemma BlockKeepsRoot(w: World, b: Book, txs: seq<Transaction>)
    requires ValidWorld(w) && [] in b.storage && BlockBook(w, b, txs).Some?
    ensures [] in BlockBook(w, b, txs).value.storage
  {
    TxsKeepRoot(w, b.(pending := [], gasFees := []), txs);
    var after := TxsBook(w, b.(pending := [], gasFees := []), txs).value;
    WritesKeepRoot(after.storage, after.pending);
  }

  lemma AfterIsConsistent(s: Scheme, w: World, h: History, call: Call)
    requires ValidWorld(w) && Consistent(s, h)
    ensures Consistent(s, After(s, w, h, call))
  {
    if call.Apply? && BlockBook(w, h.book, call.txs).Some? {
      AcceptedStoresSupply(w, h.book, call.txs);
      BlockKeepsRoot(w, h.book, call.txs);
    }
  }

  // ----- runs

  ghost function Start(s: Scheme, book: Book): History {
    History(book, [StateSnapshot(0, Root(s, book.storage), 0, [])], [book.storage])
  }

  ghost function Ran(s: Scheme, w: World, h: History, calls: seq<Call>): (r: History)
    requires ValidWorld(w) && Consistent(s, h)
    ensures Consistent(s, r)
    decreases |calls|
  {
    if calls == [] then h
    else
      var before := Ran(s, w, h, calls[..|calls| - 1]);
      AfterIsConsistent(s, w, before, calls[|calls| - 1]);
      After(s, w, before, calls[|calls| - 1])
  }

  /** Over every run of blocks, rollbacks and restores: the snapshot of height 0 holds no supply and no fees, and that
      of any other height the supply its store's supply leaf decodes to, and its store's root. */
  lemma RunRecords(s: Scheme, w: World, book: Book, calls: seq<Call>, i: nat)
    requires ValidWorld(w) && [] in book.storage && i < |Ran(s, w, Start(s, book), calls).snapshots|
    ensures
      var h := Ran(s, w, Start(s, book), calls);
      |h.storages| == |h.snapshots| && h.snapshots[i].height == i && h.snapshots[i].root == Root(s, h.storages[i]) &&
      if i == 0 then h.snapshots[0].totalSupply == 0 && h.snapshots[0].gasFees == []
      else
        var leaf := ValueAt(h.storages[i], SupplyKey());
        leaf.Some? && DecodeSupply(leaf.value) == h.snapshots[i].totalSupply
  {
    assert Consistent(s, Ran(s, w, Start(s, book), calls));
  }

  /** The call leaves the snapshots up to height `t` alone. */
  predicate StaysAbove(call: Call, t: nat) {
    match call
    case Apply(txs) => true
    case RollBack(target) => t <= target
    case RestoreTo(root, height) => t <= height
  }

  lemma {:induction false} PrefixStays(s: Scheme, w: World, h: History, calls: seq<Call>, t: nat)
    requires ValidWorld(w) && Consistent(s, h) && t < |h.snapshots|
    requires forall i | 0 <= i < |calls| :: StaysAbove(calls[i], t)
    ensures
      var r := Ran(s, w, h, calls);
      t < |r.snapshots| && r.snapshots[..t + 1] == h.snapshots[..t + 1] && r.storages[..t + 1] == h.storages[..t + 1]
    decreases |calls|
  {
    if calls != [] {
      var n := |calls| - 1;
      PrefixStays(s, w, h, calls[..n], t);
      OneCallStays(s, w, Ran(s, w, h, calls[..n]), calls[n], t);
    }
  }

  lemma OneCallStays(s: Scheme, w: World, h: History, call: Call, t: nat)
    requires Consistent(s, h) && t < |h.snapshots| && StaysAbove(call, t)
    ensures
      var r := After(s, w, h, call);
      |r.storages| == |r.snapshots| && t < |r.snapshots| &&
      r.snapshots[..t + 1] == h.snapshots[..t + 1] && r.storages[..t + 1] == h.storages[..t + 1]
  {
  }

  /** Going back to a block's height, after whatever was applied, rolled back or restored above it, gives back the
      supply, the gas fees, the store and the snapshots as they were right after that block; the marks are gone. */
  lemma RollbackReturns(s: Scheme, w: World, h: History, txs: seq<Transaction>, calls: seq<Call>)
    requires ValidWorld(w) && Consistent(s, h) && BlockBook(w, h.book, txs).Some?
    requires forall i | 0 <= i < |calls| :: StaysAbove(calls[i], |h.snapshots|)
    ensures
      var applied := Ran(s, w, h, [Apply(txs)]);
      var back := After(s, w, Ran(s, w, applied, calls), RollBack(|h.snapshots|));
      back.book.supply == applied.book.supply && back.book.gasFees == applied.book.gasFees &&
      back.book.storage == applied.book.storage && back.book.marks == {} &&
      back.snapshots == applied.snapshots && back.storages == applied.storages
  {
    var applied := Ran(s, w, h, [Apply(txs)]);
    OneBlock(s, w, h, txs);
    PrefixStays(s, w, applied, calls, |h.snapshots|);
    BackTo(s, w, applied, Ran(s, w, applied, calls));
  }

  lemma BackTo(s: Scheme, w: World, top: History, later: History)
    requires |top.snapshots| == |top.storages| > 0 && |later.snapshots| == |later.storages| >= |top.snapshots|
    requires later.snapshots[..|top.snapshots|] == top.snapshots && later.storages[..|top.snapshots|] == top.storages
    requires
      var n := |top.snapshots| - 1;
      top.snapshots[n].totalSupply == top.book.supply && top.snapshots[n].gasFees == top.book.gasFees &&
      top.storages[n] == top.book.storage
    ensures
      var back := After(s, w, later, RollBack(|top.snapshots| - 1));
      back.book.supply == top.book.supply && back.book.gasFees == top.book.gasFees &&
      back.book.storage == top.book.storage && back.book.marks == {} &&
      back.snapshots == top.snapshots && back.storages == top.storages
  {
    var n := |top.snapshots| - 1;
    assert later.snapshots[n] == later.snapshots[..n + 1][n] && later.storages[n] == later.storages[..n + 1][n];
  }

  lemma OneBlock(s: Scheme, w: World, h: History, txs: seq<Transaction>)
    requires ValidWorld(w) && Consistent(s, h) && BlockBook(w, h.book, txs).Some?
    ensures
      var applied, n := Ran(s, w, h, [Apply(txs)]), |h.snapshots|;
      applied.book == BlockBook(w, h.book, txs).value && |applied.snapshots| == n + 1 == |applied.storages| &&
      applied.snapshots[n].totalSupply == applied.book.supply && applied.snapshots[n].gasFees == applied.book.gasFees &&
      applied.storages[n] == applied.book.storage
  {
    assert [Apply(txs)][..0] == [];
  }

  // ----- what a rollback leaves behind

  /** A rollback does not touch the set of unspent outputs: supply and set then agree if and only if the supply of that
      height is the value of the set as it is now. */
  lemma RollbackLeavesTheSet(s: Scheme, w: World, h: History, target: nat)
    requires Consistent(s, h) && target < |h.snapshots|
    ensures
      var back := After(s, w, h, RollBack(target)).book;
      back.utxos == h.book.utxos && back.leafOf == h.book.leafOf &&
      (back.supply == Total(back.utxos) <==> h.snapshots[target].totalSupply == Total(h.book.utxos))
  {
  }

  /** So rolling back one coinbase leaves its output in the set, and no supply for it. */
  lemma RollbackDisagrees(s: Scheme, start: TrieState, coinbase: Transaction) returns (w: World)
    requires [] in start.storage && coinbase.inputs == [] && |coinbase.outputs| == 1 && IsPlain(coinbase)
    requires Encodable(coinbase.outputs[0]) && coinbase.outputs[0].pubkeyHash != BURN_ADDRESS
    requires 0 < coinbase.outputs[0].value <= MAX_GLOBAL_SUPPLY
    ensures ValidWorld(w)
    ensures
      var back := Ran(s, w, Start(s, EmptyBook(start)), [Apply([coinbase]), RollBack(0)]).book;
      back.supply == 0 && back.utxos == map[OutPoint(coinbase.id, 0) := coinbase.outputs[0]]
  {
    w := SomeRun(start, coinbase);
    var h, calls := Start(s, EmptyBook(start)), [Apply([coinbase]), RollBack(0)];
    assert calls[..1] == [Apply([coinbase])] && calls[..1][..0] == [];
    OneOffer(w, start, [coinbase]);
    assert Ran(s, w, h, calls[..1]) == After(s, w, h, Apply([coinbase]));
  }
}
