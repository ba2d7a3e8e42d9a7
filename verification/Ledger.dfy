/** The set of unspent outputs, and validating, applying and reverting one transaction on it. */
module Ledger {
  import opened Hashes

  datatype OutPoint = OutPoint(tx: Hash, index: nat)

  datatype TxOutput = TxOutput(value: nat, pubkeyHash: Hash)

  /** What checking an input's public key and signature against the transaction's sighash says. */
  datatype SignatureCheck = Verified | MalformedKey | MalformedSignature | Refuted

  datatype TxInput = TxInput(prevTx: Hash, index: nat, check: SignatureCheck)

  datatype Transaction = Transaction(
    id: Hash,
    inputs: seq<TxInput>,
    outputs: seq<TxOutput>,
    executionPayload: seq<int>,
    contractAddress: Option<Hash>,
    gasLimit: nat,
    maxFeePerGas: nat
  )

  datatype TxError =
    | BurnOutput | DuplicateInput | OutputOverflow | InputMissing | InputOverflow
    | InvalidPublicKey | InvalidSignature | SignatureVerificationFailed | InsufficientInput
    | InputDisappeared | CreatedNotFound | SpentNotRecorded

  datatype Result<+T, +E> = Success(value: T) | Failure(error: E)

  datatype ChangeSet = ChangeSet(spent: seq<OutPoint>, created: seq<OutPoint>)

  type Utxos = map<OutPoint, TxOutput>

  const U64_MAX: nat := 0xFFFF_FFFF_FFFF_FFFF

  function Spends(input: TxInput): OutPoint {
    OutPoint(input.prevTx, input.index)
  }

  function SpentList(tx: Transaction): (r: seq<OutPoint>)
    ensures |r| == |tx.inputs| && forall i | 0 <= i < |r| :: r[i] == Spends(tx.inputs[i])
  {
    seq(|tx.inputs|, (i: nat) requires i < |tx.inputs| => Spends(tx.inputs[i]))
  }

  function CreatedList(tx: Transaction): (r: seq<OutPoint>)
    ensures |r| == |tx.outputs| && forall i | 0 <= i < |r| :: r[i] == OutPoint(tx.id, i)
  {
    seq(|tx.outputs|, (i: nat) => OutPoint(tx.id, i))
  }

  ghost function Spent(tx: Transaction): (r: set<OutPoint>)
    ensures forall i | 0 <= i < |tx.inputs| :: Spends(tx.inputs[i]) in r
    ensures forall k | k in r :: exists i :: 0 <= i < |tx.inputs| && k == Spends(tx.inputs[i])
  {
    set i | 0 <= i < |tx.inputs| :: Spends(tx.inputs[i])
  }

  ghost function Created(tx: Transaction): (r: Utxos)
    ensures forall k :: k in r <==> k.tx == tx.id && k.index < |tx.outputs|
    ensures forall k | k in r :: r[k] == tx.outputs[k.index]
  {
    map k | k in CreatedKeys(tx) :: tx.outputs[k.index]
  }

  ghost function CreatedKeys(tx: Transaction): (r: set<OutPoint>)
    ensures forall k :: k in r <==> k.tx == tx.id && k.index < |tx.outputs|
  {
    set i: nat | i < |tx.outputs| :: OutPoint(tx.id, i)
  }

  /** The first `n` outputs. */
  ghost function CreatedBelow(tx: Transaction, n: nat): Utxos {
    map k | k in CreatedKeys(tx) && k.index < n :: tx.outputs[k.index]
  }

  lemma OneMoreCreated(u: Utxos, tx: Transaction, n: nat)
    requires n < |tx.outputs|
    ensures u + CreatedBelow(tx, n + 1) == (u + CreatedBelow(tx, n))[OutPoint(tx.id, n) := tx.outputs[n]]
  {
  }

  lemma AllCreated(tx: Transaction)
    ensures CreatedBelow(tx, |tx.outputs|) == Created(tx)
  {
  }

  ghost function Applied(u: Utxos, tx: Transaction): Utxos {
    (u - Spent(tx)) + Created(tx)
  }

  function OutputTotal(outputs: seq<TxOutput>): nat {
    if outputs == [] then 0 else OutputTotal(outputs[..|outputs| - 1]) + outputs[|outputs| - 1].value
  }

  /** The value the inputs bring in; an input that is not in the set brings nothing. */
  ghost function InputTotal(u: Utxos, inputs: seq<TxInput>): nat {
    if inputs == [] then 0
    else
      var k := Spends(inputs[|inputs| - 1]);
      InputTotal(u, inputs[..|inputs| - 1]) + if k in u then u[k].value else 0
  }

  ghost predicate RepeatsAnInput(tx: Transaction) {
    !Distinct(SpentList(tx))
  }

  function SignatureError(check: SignatureCheck): TxError
    requires !check.Verified?
  {
    match check
    case MalformedKey => InvalidPublicKey
    case MalformedSignature => InvalidSignature
    case Refuted => SignatureVerificationFailed
  }

  /** The first input, in order, that is missing, overflows the running total or is not signed for. */
  ghost function InputFault(u: Utxos, inputs: seq<TxInput>): Option<TxError> {
    if inputs == [] then None
    else
      var n := |inputs| - 1;
      var earlier := InputFault(u, inputs[..n]);
      if earlier.Some? then earlier
      else if Spends(inputs[n]) !in u then Some(InputMissing)
      else if InputTotal(u, inputs) > U64_MAX then Some(InputOverflow)
      else if !inputs[n].check.Verified? then Some(SignatureError(inputs[n].check))
      else None
  }

  ghost function Verdict(burnDigest: Hash, u: Utxos, tx: Transaction): Result<nat, TxError> {
    if exists i :: 0 <= i < |tx.outputs| && tx.outputs[i].pubkeyHash == burnDigest then Failure(BurnOutput)
    else if tx.inputs == [] then Success(0)
    else if RepeatsAnInput(tx) then Failure(DuplicateInput)
    else if OutputTotal(tx.outputs) > U64_MAX then Failure(OutputOverflow)
    else if InputFault(u, tx.inputs).Some? then Failure(InputFault(u, tx.inputs).value)
    else if OutputTotal(tx.outputs) > InputTotal(u, tx.inputs) then Failure(InsufficientInput)
    else Success(InputTotal(u, tx.inputs) - OutputTotal(tx.outputs))
  }

  /** Without a fault every input is there and signed for, and the totals stay in range all along. */
  lemma {:induction false} NoInputFault(u: Utxos, inputs: seq<TxInput>)
    ensures InputFault(u, inputs) == None <==>
      (forall i | 0 <= i < |inputs| :: Spends(inputs[i]) in u && inputs[i].check.Verified?) &&
      InputTotal(u, inputs) <= U64_MAX
    decreases |inputs|
  {
    if inputs != [] {
      NoInputFault(u, inputs[..|inputs| - 1]);
      assert forall i | 0 <= i < |inputs| - 1 :: inputs[..|inputs| - 1][i] == inputs[i];
    }
  }

  /** A transaction passes exactly when it burns nothing and, unless it is a coinbase, spends distinct existing
      outputs it has signed for, whose total is in range and covers its outputs; the fee is the difference. */
  lemma VerdictMeans(burnDigest: Hash, u: Utxos, tx: Transaction)
    ensures Verdict(burnDigest, u, tx).Success? <==>
      (forall i | 0 <= i < |tx.outputs| :: tx.outputs[i].pubkeyHash != burnDigest) &&
      (tx.inputs != [] ==>
        Distinct(SpentList(tx)) && Spent(tx) <= u.Keys &&
        (forall i | 0 <= i < |tx.inputs| :: tx.inputs[i].check.Verified?) &&
        OutputTotal(tx.outputs) <= InputTotal(u, tx.inputs) <= U64_MAX)
    ensures Verdict(burnDigest, u, tx).Success? && tx.inputs != [] ==>
      Verdict(burnDigest, u, tx).value + OutputTotal(tx.outputs) == InputTotal(u, tx.inputs)
  {
    NoInputFault(u, tx.inputs);
    assert Spent(tx) <= u.Keys <==> forall i | 0 <= i < |tx.inputs| :: Spends(tx.inputs[i]) in u;
  }

  /** The first `i` inputs are there and signed for, and their total is in range. */
  ghost predicate CleanUpTo(u: Utxos, inputs: seq<TxInput>, i: nat) {
    i <= |inputs| && InputTotal(u, inputs[..i]) <= 0xFFFF_FFFF_FFFF_FFFF &&
    forall j | 0 <= j < i :: OutPoint(inputs[j].prevTx, inputs[j].index) in u && inputs[j].check == Verified
  }

  /** The fault reported is that of the first input that is not clean: it is missing, or else it takes the total out of
      range, or else its key, its signature or the check of the two fails. */
  lemma {:induction false} FaultMeans(u: Utxos, inputs: seq<TxInput>) returns (i: nat)
    requires InputFault(u, inputs).Some?
    ensures i < |inputs| && CleanUpTo(u, inputs, i)
    ensures InputFault(u, inputs).value ==
      if OutPoint(inputs[i].prevTx, inputs[i].index) !in u then InputMissing
      else if InputTotal(u, inputs[..i + 1]) > 0xFFFF_FFFF_FFFF_FFFF then InputOverflow
      else if inputs[i].check == MalformedKey then InvalidPublicKey
      else if inputs[i].check == MalformedSignature then InvalidSignature
      else SignatureVerificationFailed
    ensures InputFault(u, inputs).value == SignatureVerificationFailed ==> inputs[i].check == Refuted
    decreases |inputs|
  {
    var n := |inputs| - 1;
    if InputFault(u, inputs[..n]).Some? {
      i := FaultMeans(u, inputs[..n]);
      assert inputs[..n][..i] == inputs[..i] && inputs[..n][..i + 1] == inputs[..i + 1];
    } else {
      i := n;
      NoInputFault(u, inputs[..n]);
      assert forall j | 0 <= j < n :: inputs[..n][j] == inputs[j];
      assert inputs[..n + 1] == inputs;
    }
  }

  /** Which of the other errors a refused transaction gets: a burn comes first, then a repeated input, then outputs out
      of range; the inputs come next, and outputs they do not cover last. */
  lemma VerdictErrors(burnDigest: Hash, u: Utxos, tx: Transaction)
    requires Verdict(burnDigest, u, tx).Failure?
    ensures
      var error := Verdict(burnDigest, u, tx).error;
      if exists i :: 0 <= i < |tx.outputs| && tx.outputs[i].pubkeyHash == burnDigest then error == BurnOutput
      else
        tx.inputs != [] &&
        if !Distinct(SpentList(tx)) then error == DuplicateInput
        else if OutputTotal(tx.outputs) > 0xFFFF_FFFF_FFFF_FFFF then error == OutputOverflow
        else if CleanUpTo(u, tx.inputs, |tx.inputs|) then error == InsufficientInput
        else InputFault(u, tx.inputs) == Some(error)
  {
    NoInputFault(u, tx.inputs);
    assert tx.inputs[..|tx.inputs|] == tx.inputs;
    assert forall i | 0 <= i < |tx.inputs| :: Spends(tx.inputs[i]) == OutPoint(tx.inputs[i].prevTx, tx.inputs[i].index);
  }

  /** A transaction that passes spends only outputs of the set, each once. */
  lemma PassedSpendsExisting(burnDigest: Hash, u: Utxos, tx: Transaction)
    requires Verdict(burnDigest, u, tx).Success?
    ensures Spent(tx) <= u.Keys && Distinct(SpentList(tx))
  {
    VerdictMeans(burnDigest, u, tx);
  }

  class UtxoSet {
    /** The digest of the burn address. */
    const burnDigest: Hash
    var utxos: Utxos

    constructor (burnDigest: Hash)
      ensures this.burnDigest == burnDigest && utxos == map[]
    {
      this.burnDigest := burnDigest;
      utxos := map[];
    }

    method ValidateTx(tx: Transaction) returns (r: Result<nat, TxError>)
      ensures r == Verdict(burnDigest, utxos, tx)
    {
      if exists i :: 0 <= i < |tx.outputs| && tx.outputs[i].pubkeyHash == burnDigest {
        return Failure(BurnOutput);
      }
      if tx.inputs == [] {
        return Success(0);
      }
      var repeats := HasRepeats(SpentList(tx));
      if repeats {
        return Failure(DuplicateInput);
      }
      var totalOutput := 0;
      for i := 0 to |tx.outputs|
        invariant totalOutput == OutputTotal(tx.outputs[..i]) && totalOutput <= U64_MAX
      {
        OutputTotalStep(tx.outputs, i);
        if totalOutput + tx.outputs[i].value > U64_MAX {
          OutputTotalGrows(tx.outputs, i + 1);
          return Failure(OutputOverflow);
        }
        totalOutput := totalOutput + tx.outputs[i].value;
      }
      assert tx.outputs[..|tx.outputs|] == tx.outputs;
      var totalInput := 0;
      for i := 0 to |tx.inputs|
        invariant totalInput == InputTotal(utxos, tx.inputs[..i])
        invariant InputFault(utxos, tx.inputs[..i]) == None
      {
        var input := tx.inputs[i];
        assert tx.inputs[..i + 1][..i] == tx.inputs[..i];
        var fault := None;
        if Spends(input) !in utxos {
          fault := Some(InputMissing);
        } else {
          totalInput := totalInput + utxos[Spends(input)].value;
          if totalInput > U64_MAX {
            fault := Some(InputOverflow);
          } else if !input.check.Verified? {
            fault := Some(SignatureError(input.check));
          }
        }
        assert InputFault(utxos, tx.inputs[..i + 1]) == fault;
        if fault.Some? {
          FirstFaultStays(utxos, tx.inputs, i + 1);
          return Failure(fault.value);
        }
      }
      assert tx.inputs[..|tx.inputs|] == tx.inputs;
      if totalOutput > totalInput {
        return Failure(InsufficientInput);
      }
      return Success(totalInput - totalOutput);
    }

    /** Applies a transaction that passes. A failed call leaves the set untouched: once validation has passed,
        no input can turn out missing halfway. */
    method ApplyTx(tx: Transaction) returns (r: Result<ChangeSet, TxError>)
      modifies this
      ensures r.Success? <==> old(Verdict(burnDigest, utxos, tx)).Success?
      ensures r.Failure? ==> utxos == old(utxos) && Failure(r.error) == old(Verdict(burnDigest, utxos, tx))
      ensures r.Success? ==> utxos == Applied(old(utxos), tx) && r.value == ChangeSet(SpentList(tx), CreatedList(tx))
    {
      var verdict := ValidateTx(tx);
      if verdict.Failure? {
        return Failure(verdict.error);
      }
      PassedSpendsExisting(burnDigest, utxos, tx);
      var spent := RemoveSpent(tx);
      var created := AddCreated(tx);
      return Success(ChangeSet(spent, created));
    }

    method RemoveSpent(tx: Transaction) returns (spent: seq<OutPoint>)
      requires Spent(tx) <= utxos.Keys && Distinct(SpentList(tx))
      modifies this
      ensures spent == SpentList(tx) && utxos == old(utxos) - Spent(tx)
    {
      var keys := SpentList(tx);
      spent := [];
      for i := 0 to |keys|
        invariant spent == keys[..i] && utxos == old(utxos) - Elements(keys[..i])
      {
        var key := keys[i];
        assert key == Spends(tx.inputs[i]) && key !in keys[..i];
        assert keys[..i + 1] == keys[..i] + [key];
        if key in utxos {
          utxos := utxos - {key};
          spent := spent + [key];
        } else {
          // The source reports an input that disappeared; it was validated, so it is there.
          assert false;
        }
      }
      assert keys[..|keys|] == keys;
      assert Elements(keys) == Spent(tx);
    }

    method AddCreated(tx: Transaction) returns (created: seq<OutPoint>)
      modifies this
      ensures created == CreatedList(tx) && utxos == old(utxos) + Created(tx)
    {
      var keys := CreatedList(tx);
      created := [];
      for i := 0 to |keys|
        invariant created == keys[..i] && utxos == old(utxos) + CreatedBelow(tx, i)
      {
        OneMoreCreated(old(utxos), tx, i);
        assert keys[..i + 1] == keys[..i] + [keys[i]];
        utxos := utxos[keys[i] := tx.outputs[i]];
        created := created + [keys[i]];
      }
      assert keys[..|keys|] == keys;
      AllCreated(tx);
    }

    /** Undoes a change set with the outputs recorded for it. */
    method RevertTx(changes: ChangeSet, spentOutputs: Utxos) returns (error: Option<TxError>)
      modifies this
      ensures error.None? <==>
        Distinct(changes.created) && Elements(changes.created) <= old(utxos).Keys &&
        Elements(changes.spent) <= spentOutputs.Keys
      ensures error.None? ==>
        utxos == Unwound(old(utxos), Elements(changes.created), Elements(changes.spent), spentOutputs)
    {
      error := RemoveCreated(changes.created);
      if error.None? {
        error := RestoreSpent(changes.spent, spentOutputs);
      }
    }

    method RemoveCreated(created: seq<OutPoint>) returns (error: Option<TxError>)
      modifies this
      ensures error.None? <==> Distinct(created) && Elements(created) <= old(utxos).Keys
      ensures error.None? ==> utxos == old(utxos) - Elements(created)
    {
      for i := 0 to |created|
        invariant Distinct(created[..i]) && Elements(created[..i]) <= old(utxos).Keys
        invariant utxos == old(utxos) - Elements(created[..i])
      {
        var key := created[i];
        assert created[..i + 1] == created[..i] + [key];
        if key !in utxos {
          AlreadyGone(created, i, old(utxos).Keys);
          return Some(CreatedNotFound);
        }
        utxos := utxos - {key};
      }
      assert created[..|created|] == created;
      return None;
    }

    method RestoreSpent(spent: seq<OutPoint>, spentOutputs: Utxos) returns (error: Option<TxError>)
      modifies this
      ensures error.None? <==> Elements(spent) <= spentOutputs.Keys
      ensures error.None? ==> utxos == old(utxos) + map k | k in Elements(spent) :: spentOutputs[k]
    {
      for i := 0 to |spent|
        invariant Elements(spent[..i]) <= spentOutputs.Keys
        invariant utxos == old(utxos) + map k | k in Elements(spent[..i]) :: spentOutputs[k]
      {
        var key := spent[i];
        assert spent[..i + 1] == spent[..i] + [key];
        if key !in spentOutputs {
          MemberOf(spent, i);
          return Some(SpentNotRecorded);
        }
        utxos := utxos[key := spentOutputs[key]];
      }
      assert spent[..|spent|] == spent;
      return None;
    }
  }

  ghost function Unwound(u: Utxos, created: set<OutPoint>, spent: set<OutPoint>, spentOutputs: Utxos): Utxos
    requires spent <= spentOutputs.Keys
  {
    (u - created) + map k | k in spent :: spentOutputs[k]
  }

  lemma AlreadyGone(s: seq<OutPoint>, i: nat, keys: set<OutPoint>)
    requires i < |s| && (s[i] !in keys || s[i] in s[..i])
    ensures !(Distinct(s) && Elements(s) <= keys)
  {
    MemberOf(s, i);
  }

  method HasRepeats(s: seq<OutPoint>) returns (r: bool)
    ensures r <==> !Distinct(s)
  {
    var seen: set<OutPoint> := {};
    for i := 0 to |s|
      invariant Distinct(s[..i]) && seen == Elements(s[..i])
    {
      assert s[..i + 1] == s[..i] + [s[i]];
      if s[i] in seen {
        return true;
      }
      seen := seen + {s[i]};
    }
    assert s[..|s|] == s;
    return false;
  }

  lemma OutputTotalStep(outputs: seq<TxOutput>, i: nat)
    requires i < |outputs|
    ensures OutputTotal(outputs[..i + 1]) == OutputTotal(outputs[..i]) + outputs[i].value
  {
    assert outputs[..i + 1][..i] == outputs[..i];
  }

  lemma {:induction false} OutputTotalGrows(outputs: seq<TxOutput>, i: nat)
    requires i <= |outputs|
    ensures OutputTotal(outputs[..i]) <= OutputTotal(outputs)
    decreases |outputs| - i
  {
    if i == |outputs| {
      assert outputs[..i] == outputs;
    } else {
      OutputTotalStep(outputs, i);
      OutputTotalGrows(outputs, i + 1);
    }
  }

  lemma {:induction false} FirstFaultStays(u: Utxos, inputs: seq<TxInput>, i: nat)
    requires i <= |inputs| && InputFault(u, inputs[..i]).Some?
    ensures InputFault(u, inputs) == InputFault(u, inputs[..i])
    decreases |inputs| - i
  {
    if i == |inputs| {
      assert inputs[..i] == inputs;
    } else {
      assert inputs[..i + 1][..i] == inputs[..i];
      FirstFaultStays(u, inputs, i + 1);
    }
  }
}
