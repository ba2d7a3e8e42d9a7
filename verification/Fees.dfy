/** Value conservation: where the value of spent outputs goes, and the fee pool of a block. */
module Fees {
  import opened Hashes
  import opened Ledger
  import opened BlockRollback

  const U128_MAX: nat := 0xFFFF_FFFF_FFFF_FFFF_FFFF_FFFF_FFFF_FFFF

  /** The value of the outputs under `keys`. */
  ghost function SumOver(u: Utxos, keys: set<OutPoint>): nat
    requires keys <= u.Keys
  {
    if keys == {} then 0
    else
      var k := Member(keys);
      u[k].value + SumOver(u, keys - {k})
  }

  /** The value of all unspent outputs together. */
  ghost function Total(u: Utxos): nat {
    SumOver(u, u.Keys)
  }

  /** The order in which outputs are added up does not matter. */
  lemma {:induction false} SumWithout(u: Utxos, keys: set<OutPoint>, k: OutPoint)
    requires keys <= u.Keys && k in keys
    ensures SumOver(u, keys) == u[k].value + SumOver(u, keys - {k})
    decreases keys
  {
    var m := Member(keys);
    if m != k {
      SumWithout(u, keys - {m}, k);
      SumWithout(u, keys - {k}, m);
      assert keys - {m} - {k} == keys - {k} - {m};
    }
  }

  lemma {:induction false} SumSplits(u: Utxos, a: set<OutPoint>, b: set<OutPoint>)
    requires a <= u.Keys && b <= u.Keys && a !! b
    ensures SumOver(u, a + b) == SumOver(u, a) + SumOver(u, b)
    decreases a
  {
    if a == {} {
      assert a + b == b;
    } else {
      var k := Member(a);
      SumSplits(u, a - {k}, b);
      SumWithout(u, a + b, k);
      assert a + b - {k} == (a - {k}) + b;
    }
  }

  lemma {:induction false} SumSame(u: Utxos, u': Utxos, keys: set<OutPoint>)
    requires keys <= u.Keys && keys <= u'.Keys && forall k | k in keys :: u[k].value == u'[k].value
    ensures SumOver(u, keys) == SumOver(u', keys)
    decreases keys
  {
    if keys != {} {
      SumSame(u, u', keys - {Member(keys)});
    }
  }

  ghost function SpentPrefix(inputs: seq<TxInput>, n: nat): (r: set<OutPoint>)
    requires n <= |inputs|
  {
    set i | 0 <= i < n :: Spends(inputs[i])
  }

  /** Distinct existing inputs together hold exactly the input total. */
  lemma {:induction false} InputsHold(u: Utxos, inputs: seq<TxInput>, n: nat)
    requires n <= |inputs| && forall i | 0 <= i < |inputs| :: Spends(inputs[i]) in u
    requires forall i, j | 0 <= i < j < |inputs| :: Spends(inputs[i]) != Spends(inputs[j])
    ensures SpentPrefix(inputs, n) <= u.Keys && SumOver(u, SpentPrefix(inputs, n)) == InputTotal(u, inputs[..n])
    decreases n
  {
    if n > 0 {
      var k := Spends(inputs[n - 1]);
      InputsHold(u, inputs, n - 1);
      assert inputs[..n][..n - 1] == inputs[..n - 1];
      assert SpentPrefix(inputs, n) == SpentPrefix(inputs, n - 1) + {k};
      SumWithout(u, SpentPrefix(inputs, n), k);
      assert SpentPrefix(inputs, n) - {k} == SpentPrefix(inputs, n - 1);
    }
  }

  ghost function CreatedPrefix(id: Hash, n: nat): (r: set<OutPoint>)
    ensures forall k :: k in r <==> k.tx == id && k.index < n
  {
    set i: nat | i < n :: OutPoint(id, i)
  }

  /** The created outputs together hold exactly the output total. */
  lemma {:induction false} OutputsHold(u: Utxos, id: Hash, outputs: seq<TxOutput>, n: nat)
    requires n <= |outputs| && forall i: nat | i < |outputs| :: OutPoint(id, i) in u && u[OutPoint(id, i)] == outputs[i]
    ensures CreatedPrefix(id, n) <= u.Keys && SumOver(u, CreatedPrefix(id, n)) == OutputTotal(outputs[..n])
    decreases n
  {
    if n > 0 {
      var k := OutPoint(id, n - 1);
      OutputsHold(u, id, outputs, n - 1);
      OutputTotalStep(outputs, n - 1);
      assert CreatedPrefix(id, n) == CreatedPrefix(id, n - 1) + {k};
      SumWithout(u, CreatedPrefix(id, n), k);
      assert CreatedPrefix(id, n) - {k} == CreatedPrefix(id, n - 1);
    }
  }

  /** The outputs that applying `tx` overwrites. */
  ghost function Overwritten(u: Utxos, tx: Transaction): set<OutPoint> {
    CreatedKeys(tx) * (u.Keys - Spent(tx))
  }

  /** Conservation, for every set of distinct existing inputs: the value that leaves the set is what the inputs held
      and what gets overwritten, the value that enters is what the outputs hold. */
  lemma ValueBalance(u: Utxos, tx: Transaction)
    requires Spent(tx) <= u.Keys && Distinct(SpentList(tx))
    ensures Total(Applied(u, tx)) + SumOver(u, Overwritten(u, tx)) + InputTotal(u, tx.inputs)
      == Total(u) + OutputTotal(tx.outputs)
  {
    var after, kept := Applied(u, tx), u.Keys - Spent(tx) - CreatedKeys(tx);
    InputsLeave(u, tx);
    OutputsEnter(u, tx);
    SumSplits(after, kept, CreatedKeys(tx));
    assert after.Keys == kept + CreatedKeys(tx);
    SumSame(u, after, kept);
    SumSplits(u, kept, Overwritten(u, tx));
    SumSplits(u, kept + Overwritten(u, tx), Spent(tx));
    assert u.Keys == kept + Overwritten(u, tx) + Spent(tx);
  }

  lemma InputsLeave(u: Utxos, tx: Transaction)
    requires Spent(tx) <= u.Keys && Distinct(SpentList(tx))
    ensures SumOver(u, Spent(tx)) == InputTotal(u, tx.inputs)
  {
    forall i, j | 0 <= i < j < |tx.inputs|
      ensures Spends(tx.inputs[i]) != Spends(tx.inputs[j])
    {
      assert SpentList(tx)[i] != SpentList(tx)[j];
    }
    InputsHold(u, tx.inputs, |tx.inputs|);
    assert tx.inputs[..|tx.inputs|] == tx.inputs;
    assert Spent(tx) == SpentPrefix(tx.inputs, |tx.inputs|);
  }

  lemma OutputsEnter(u: Utxos, tx: Transaction)
    ensures SumOver(Applied(u, tx), CreatedKeys(tx)) == OutputTotal(tx.outputs)
  {
    OutputsHold(Applied(u, tx), tx.id, tx.outputs, |tx.outputs|);
    assert tx.outputs[..|tx.outputs|] == tx.outputs;
    assert CreatedKeys(tx) == CreatedPrefix(tx.id, |tx.outputs|);
  }

  ghost predicate CreatesFresh(u: Utxos, tx: Transaction) {
    CreatedKeys(tx) !! u.Keys - Spent(tx)
  }

  /** A transaction lowers the set's total by exactly its fee, if and only if what it overwrites has no value. */
  lemma FeeIsTheDrop(burnDigest: Hash, u: Utxos, tx: Transaction)
    requires Verdict(burnDigest, u, tx).Success? && tx.inputs != []
    ensures Total(Applied(u, tx)) + Verdict(burnDigest, u, tx).value == Total(u) <==>
      SumOver(u, Overwritten(u, tx)) == 0
    ensures CreatesFresh(u, tx) ==> SumOver(u, Overwritten(u, tx)) == 0
  {
    PassedSpendsExisting(burnDigest, u, tx);
    ValueBalance(u, tx);
    VerdictMeans(burnDigest, u, tx);
    if CreatesFresh(u, tx) {
      assert Overwritten(u, tx) == {};
    }
  }

  function SaturatingMul(a: nat, b: nat): (r: nat)
    ensures r <= 0xFFFF_FFFF_FFFF_FFFF_FFFF_FFFF_FFFF_FFFF && r <= a * b
    ensures r == a * b || r == 0xFFFF_FFFF_FFFF_FFFF_FFFF_FFFF_FFFF_FFFF
  {
    if a * b > U128_MAX then U128_MAX else a * b
  }

  function SaturatingAdd(a: nat, b: nat): (r: nat)
    ensures r <= 0xFFFF_FFFF_FFFF_FFFF_FFFF_FFFF_FFFF_FFFF && r <= a + b
    ensures r == a + b || r == 0xFFFF_FFFF_FFFF_FFFF_FFFF_FFFF_FFFF_FFFF
  {
    if a + b > U128_MAX then U128_MAX else a + b
  }

  /** Base fee plus gas fee of one transaction. */
  method CalculateTxTotalFee(tx: Transaction, utxo: UtxoSet) returns (r: Result<nat, TxError>)
    ensures r.Success? <==> Verdict(utxo.burnDigest, utxo.utxos, tx).Success?
    ensures r.Success? ==>
      r.value
        == SaturatingAdd(Verdict(utxo.burnDigest, utxo.utxos, tx).value, SaturatingMul(tx.gasLimit, tx.maxFeePerGas))
    ensures r.Failure? ==> Failure(r.error) == Verdict(utxo.burnDigest, utxo.utxos, tx)
  {
    var base := utxo.ValidateTx(tx);
    if base.Failure? {
      return Failure(base.error);
    }
    return Success(SaturatingAdd(base.value, SaturatingMul(tx.gasLimit, tx.maxFeePerGas)));
  }

  /** The transactions that pay fees: all but coinbases, in order. */
  function Paying(txs: seq<Transaction>): seq<Transaction> {
    if txs == [] then []
    else
      var earlier := Paying(txs[..|txs| - 1]);
      if txs[|txs| - 1].inputs == [] then earlier else earlier + [txs[|txs| - 1]]
  }

  /** All transactions with inputs, each as often as it is there, and nothing else. */
  lemma {:induction false} PayingMeans(txs: seq<Transaction>, tx: Transaction)
    ensures multiset(Paying(txs))[tx] == if tx.inputs == [] then 0 else multiset(txs)[tx]
    decreases |txs|
  {
    if txs != [] {
      var n := |txs| - 1;
      PayingMeans(txs[..n], tx);
      assert txs == txs[..n] + [txs[n]];
    }
  }

  function GasTotal(txs: seq<Transaction>): nat {
    if txs == [] then 0 else GasTotal(txs[..|txs| - 1]) + txs[|txs| - 1].gasLimit * txs[|txs| - 1].maxFeePerGas
  }

  ghost function FeeTotal(burnDigest: Hash, u: Utxos, txs: seq<Transaction>): nat {
    if txs == [] then 0
    else
      var verdict := Verdict(burnDigest, Forward(u, txs[..|txs| - 1]), txs[|txs| - 1]);
      FeeTotal(burnDigest, u, txs[..|txs| - 1]) + if verdict.Success? then verdict.value else 0
  }

  /** All fees and all gas. */
  ghost function Pool(burnDigest: Hash, u: Utxos, txs: seq<Transaction>): nat {
    FeeTotal(burnDigest, u, txs) + GasTotal(txs)
  }

  datatype FeeError = BadTransaction(cause: TxError) | FeeOverflow

  /** Adds up all fees on a working copy. An `Ok` is the exact sum: had any step saturated, it would be an error. */
  method CalculateAcceptedFees(txs: seq<Transaction>, utxo: UtxoSet) returns (r: Result<nat, FeeError>)
    ensures r.Success? <==>
      (Passed(utxo.burnDigest, utxo.utxos, Paying(txs)) && Pool(utxo.burnDigest, utxo.utxos, Paying(txs)) <= U64_MAX)
    ensures r.Success? ==> r.value == Pool(utxo.burnDigest, utxo.utxos, Paying(txs)) <= U64_MAX
    ensures r.Failure? && r.error.BadTransaction? ==> !Passed(utxo.burnDigest, utxo.utxos, Paying(txs))
    ensures r.Failure? && r.error.FeeOverflow? ==> Pool(utxo.burnDigest, utxo.utxos, Paying(txs)) > U64_MAX
  {
    var total := 0;
    var working := new UtxoSet(utxo.burnDigest);
    working.utxos := utxo.utxos;
    ghost var all := Paying(txs);
    for i := 0 to |txs|
      invariant unchanged(utxo) && working.burnDigest == utxo.burnDigest
      invariant PaidUpTo(utxo.burnDigest, utxo.utxos, Paying(txs[..i]), working.utxos, total)
    {
      NextPaying(txs, i);
      if txs[i].inputs != [] {
        var paid := PayRound(txs[i], working, total, utxo.utxos, all, Paying(txs[..i]));
        if paid.Failure? {
          return Failure(paid.error);
        }
        total := paid.value;
      }
    }
    assert txs[..|txs|] == txs;
    return Success(total);
  }

  /** `paying` all passed, the working set is where they lead, and `total` is exactly what they pay. */
  ghost predicate PaidUpTo(burnDigest: Hash, u: Utxos, paying: seq<Transaction>, w: Utxos, total: nat) {
    w == Forward(u, paying) && Passed(burnDigest, u, paying) &&
    total == FeeTotal(burnDigest, u, paying) + GasTotal(paying) <= U64_MAX
  }

  /** What a transaction with this base fee brings in. */
  function Price(tx: Transaction, base: nat): nat {
    base + tx.gasLimit * tx.maxFeePerGas
  }

  lemma PayNext(burnDigest: Hash, u: Utxos, all: seq<Transaction>, paying: seq<Transaction>, tx: Transaction, w: Utxos,
                total: nat)
    requires PaidUpTo(burnDigest, u, paying, w, total)
    requires |paying| < |all| && all[..|paying| + 1] == paying + [tx]
    ensures Verdict(burnDigest, w, tx).Failure? ==> !Passed(burnDigest, u, all)
    ensures Verdict(burnDigest, w, tx).Success? ==>
      PaidOrFull(burnDigest, u, all, paying + [tx], Applied(w, tx), total + Price(tx, Verdict(burnDigest, w, tx).value))
  {
    OnePayingMore(burnDigest, u, paying, tx);
    if Verdict(burnDigest, w, tx).Failure? {
      PrefixFails(burnDigest, u, all, |paying| + 1);
    } else {
      FeesGrow(burnDigest, u, all, |paying| + 1);
    }
  }

  ghost predicate PaidOrFull(burnDigest: Hash, u: Utxos, all: seq<Transaction>, paying: seq<Transaction>, w: Utxos,
                             total: nat) {
    if total > U64_MAX then Pool(burnDigest, u, all) > U64_MAX else PaidUpTo(burnDigest, u, paying, w, total)
  }

  /** One round of the fee loop. The apply can no longer fail once the fee is known. */
  method PayOne(tx: Transaction, working: UtxoSet, total: nat) returns (r: Result<nat, FeeError>)
    requires total <= U64_MAX
    modifies working
    ensures r.Failure? && r.error.BadTransaction? <==> old(Verdict(working.burnDigest, working.utxos, tx)).Failure?
    ensures r.Success? ==> working.utxos == Applied(old(working.utxos), tx)
    ensures r.Success? ==>
      r.value == total + Price(tx, old(Verdict(working.burnDigest, working.utxos, tx)).value) <= U64_MAX
    ensures r.Failure? && r.error.FeeOverflow? ==>
      total + Price(tx, old(Verdict(working.burnDigest, working.utxos, tx)).value) > U64_MAX
  {
    var fee := CalculateTxTotalFee(tx, working);
    if fee.Failure? {
      return Failure(BadTransaction(fee.error));
    }
    var applied := working.ApplyTx(tx);
    if applied.Failure? {
      assert false;
    }
    var sum := SaturatingAdd(total, fee.value);
    return if sum > U64_MAX then Failure(FeeOverflow) else Success(sum);
  }

  /** The same round, seen against all the paying transactions. */
  method PayRound(tx: Transaction, working: UtxoSet, total: nat, ghost u: Utxos, ghost all: seq<Transaction>,
                  ghost paying: seq<Transaction>)
    returns (r: Result<nat, FeeError>)
    requires PaidUpTo(working.burnDigest, u, paying, working.utxos, total)
    requires |paying| < |all| && all[..|paying| + 1] == paying + [tx]
    modifies working
    ensures r.Success? ==> PaidUpTo(working.burnDigest, u, paying + [tx], working.utxos, r.value)
    ensures r.Failure? && r.error.BadTransaction? ==> !Passed(working.burnDigest, u, all)
    ensures r.Failure? && r.error.FeeOverflow? ==> Pool(working.burnDigest, u, all) > U64_MAX
  {
    PayNext(working.burnDigest, u, all, paying, tx, working.utxos, total);
    r := PayOne(tx, working, total);
  }

  lemma NextPaying(txs: seq<Transaction>, i: nat)
    requires i < |txs|
    ensures Paying(txs[..i + 1]) == if txs[i].inputs == [] then Paying(txs[..i]) else Paying(txs[..i]) + [txs[i]]
    ensures txs[i].inputs != [] ==>
      |Paying(txs[..i])| < |Paying(txs)| && Paying(txs)[..|Paying(txs[..i])| + 1] == Paying(txs[..i]) + [txs[i]]
  {
    assert txs[..i + 1][..i] == txs[..i];
    PayingPrefix(txs, i + 1);
  }

  lemma OnePayingMore(burnDigest: Hash, u: Utxos, txs: seq<Transaction>, tx: Transaction)
    ensures Forward(u, txs + [tx]) == Applied(Forward(u, txs), tx)
    ensures Passed(burnDigest, u, txs + [tx]) <==>
      Passed(burnDigest, u, txs) && Verdict(burnDigest, Forward(u, txs), tx).Success?
    ensures GasTotal(txs + [tx]) == GasTotal(txs) + tx.gasLimit * tx.maxFeePerGas
    ensures Verdict(burnDigest, Forward(u, txs), tx).Success? ==>
      FeeTotal(burnDigest, u, txs + [tx])
        == FeeTotal(burnDigest, u, txs) + Verdict(burnDigest, Forward(u, txs), tx).value
  {
    assert (txs + [tx])[..|txs|] == txs;
  }

  lemma {:induction false} PayingPrefix(txs: seq<Transaction>, i: nat)
    requires i <= |txs|
    ensures |Paying(txs[..i])| <= |Paying(txs)| && Paying(txs[..i]) == Paying(txs)[..|Paying(txs[..i])|]
    decreases |txs| - i
  {
    if i == |txs| {
      assert txs[..i] == txs;
    } else {
      assert txs[..i + 1][..i] == txs[..i];
      PayingPrefix(txs, i + 1);
    }
  }

  lemma {:induction false} PrefixFails(burnDigest: Hash, u: Utxos, txs: seq<Transaction>, n: nat)
    requires n <= |txs| && !Passed(burnDigest, u, txs[..n])
    ensures !Passed(burnDigest, u, txs)
    decreases |txs| - n
  {
    if n == |txs| {
      assert txs[..n] == txs;
    } else {
      assert txs[..n + 1][..n] == txs[..n];
      PrefixFails(burnDigest, u, txs, n + 1);
    }
  }

  lemma {:induction false} FeesGrow(burnDigest: Hash, u: Utxos, txs: seq<Transaction>, n: nat)
    requires n <= |txs|
    ensures FeeTotal(burnDigest, u, txs[..n]) <= FeeTotal(burnDigest, u, txs) && GasTotal(txs[..n]) <= GasTotal(txs)
    decreases |txs| - n
  {
    if n == |txs| {
      assert txs[..n] == txs;
    } else {
      assert txs[..n + 1][..n] == txs[..n];
      FeesGrow(burnDigest, u, txs, n + 1);
    }
  }

  /** Value a block destroys by writing over unspent outputs. */
  ghost function Lost(u: Utxos, txs: seq<Transaction>): nat {
    if txs == [] then 0
    else
      var before := Forward(u, txs[..|txs| - 1]);
      Lost(u, txs[..|txs| - 1]) + SumOver(before, Overwritten(before, txs[|txs| - 1]))
  }

  /** Value a block's coinbases bring in. */
  function Minted(txs: seq<Transaction>): nat {
    if txs == [] then 0
    else
      var tx := txs[|txs| - 1];
      Minted(txs[..|txs| - 1]) + if tx.inputs == [] then OutputTotal(tx.outputs) else 0
  }

  /** Conservation over a whole block: what was there and what coinbases bring in is what is there after, the fees, and
      what was written over; so the fees are the drop if and only if nothing of value was. */
  lemma {:induction false} PoolIsTheDrop(burnDigest: Hash, u: Utxos, txs: seq<Transaction>)
    requires Passed(burnDigest, u, txs)
    ensures Total(Forward(u, txs)) + FeeTotal(burnDigest, u, txs) + Lost(u, txs) == Total(u) + Minted(txs)
    ensures Total(Forward(u, txs)) + FeeTotal(burnDigest, u, txs) == Total(u) + Minted(txs) <==> Lost(u, txs) == 0
    ensures NoneOverwritten(u, txs) ==> Lost(u, txs) == 0
    decreases |txs|
  {
    if txs != [] {
      var n := |txs| - 1;
      PoolIsTheDrop(burnDigest, u, txs[..n]);
      FeeIsPaid(burnDigest, Forward(u, txs[..n]), txs[n]);
    }
  }

  lemma FeeIsPaid(burnDigest: Hash, u: Utxos, tx: Transaction)
    requires Verdict(burnDigest, u, tx).Success?
    ensures Total(Applied(u, tx)) + Verdict(burnDigest, u, tx).value + SumOver(u, Overwritten(u, tx)) ==
      Total(u) + if tx.inputs == [] then OutputTotal(tx.outputs) else 0
  {
    PassedSpendsExisting(burnDigest, u, tx);
    ValueBalance(u, tx);
    VerdictMeans(burnDigest, u, tx);
  }
}
