/** When a block is applied, and what each refusal says. */
module UtxoRefusals {
  import opened Prelude
  import opened BitcoinDomain
  import opened UtxoSpec
  import opened UtxoOverflow

  /** What a failure says about the transaction and the map it met. */
  ghost predicate Means(e: Entries, tx: Tx, f: Failure) {
    var spent, outs := Prevouts(tx), OutputSum(tx.outputs);
    match f
    case InputIndexOverflow(txid, i) => txid == tx.txid && i == 0x1_0000_0000 < |spent| && Spendable(e, spent[..i])
    case NoSuchPrevout(txid, i, o) =>
      && txid == tx.txid && i < |spent| && spent[i] == o && Spendable(e, spent[..i])
      && i <= U32_MAX && (o !in e || o in spent[..i])
    case InputSumOverflow(txid, i, o) => txid == tx.txid && SumOverflows(e, tx, i) && spent[i] == o
    case OutputSumOverflow(txid) => txid == tx.txid && Spendable(e, spent) && outs > U64_MAX
    case FeeBelowZero(txid, ins, outs') =>
      && txid == tx.txid && Spendable(e, spent) && !tx.coinbase && outs <= U64_MAX
      && ins == InputSum(e, spent) < outs == outs'
    case OutputIndexOverflow(txid, i) =>
      && txid == tx.txid && i == 0x1_0000_0000 < |tx.outputs| && Balanced(e, tx)
      && forall j | 0 <= j < i :: OutPoint(tx.txid, j) !in Without(e, spent)
    case OutpointExists(txid, i, o) =>
      && txid == tx.txid && i < |tx.outputs| && i <= U32_MAX && o == OutPoint(tx.txid, i) && Balanced(e, tx)
      && o in Without(e, spent) && forall j | 0 <= j < i :: OutPoint(tx.txid, j) !in Without(e, spent)
  }

  /** Inputs that can be spent and that cover the outputs. */
  ghost predicate Balanced(e: Entries, tx: Tx) {
    && Spendable(e, Prevouts(tx)) && OutputSum(tx.outputs) <= U64_MAX
    && (!tx.coinbase ==> OutputSum(tx.outputs) <= InputSum(e, Prevouts(tx)))
  }

  lemma {:induction false} InputFailureMeans(e: Entries, tx: Tx, n: nat)
    requires n <= |Prevouts(tx)| && InputFailure(e, tx, n).Some?
    ensures Means(e, tx, InputFailure(e, tx, n).value)
  {
    if InputFailure(e, tx, n - 1).Some? {
      InputFailureMeans(e, tx, n - 1);
    } else {
      LastInputMeans(e, tx, n);
    }
  }

  lemma LastInputMeans(e: Entries, tx: Tx, n: nat)
    requires 0 < n <= |Prevouts(tx)| && InputFailure(e, tx, n - 1).None? && InputFailure(e, tx, n).Some?
    ensures Means(e, tx, InputFailure(e, tx, n).value)
  {
    NoInputFailureIffSpendable(e, tx, n - 1);
  }

  lemma {:induction false} OutputFailureMeans(e: Entries, tx: Tx, n: nat)
    requires n <= |tx.outputs| && OutputFailure(Without(e, Prevouts(tx)), tx, n).Some? && Balanced(e, tx)
    ensures Means(e, tx, OutputFailure(Without(e, Prevouts(tx)), tx, n).value)
  {
    var e1 := Without(e, Prevouts(tx));
    if OutputFailure(e1, tx, n - 1).Some? {
      OutputFailureMeans(e, tx, n - 1);
    } else {
      NoOutputFailureIffFresh(e1, tx, n - 1);
    }
  }

  lemma TxFailureMeans(e: Entries, tx: Tx)
    requires ApplyTx(e, tx).failure.Some?
    ensures Means(e, tx, ApplyTx(e, tx).failure.value)
  {
    var spent := Prevouts(tx);
    assert spent[..|spent|] == spent;
    NoInputFailureIffSpendable(e, tx, |spent|);
    if InputFailure(e, tx, |spent|).Some? {
      InputFailureMeans(e, tx, |spent|);
    } else if Balanced(e, tx) {
      OutputFailureMeans(e, tx, |tx.outputs|);
    }
  }

  /** The transactions before `k` are valid, and transaction `k` fails on what they leave, as `f` says. */
  ghost predicate FailsAt(e: Entries, txs: seq<Tx>, k: nat, f: Failure) {
    k < |txs| && ValidTxs(e, txs[..k]) && Means(SettledAll(e, txs[..k]), txs[k], f)
  }

  lemma {:induction false} TxsFailureMeans(e: Entries, txs: seq<Tx>) returns (k: nat)
    requires ApplyTxs(e, txs).failure.Some?
    ensures FailsAt(e, txs, k, ApplyTxs(e, txs).failure.value)
    decreases |txs|
  {
    var first := ApplyTx(e, txs[0]);
    assert ApplyTxs(e, txs) == After(first, txs[1..]);
    if first.failure.Some? {
      k := 0;
      TxFailureMeans(e, txs[0]);
      assert txs[..0] == [];
    } else {
      ApplyTxIsValidTx(e, txs[0]);
      k := TxsFailureMeans(first.entries, txs[1..]);
      k := k + 1;
      assert txs[..k][0] == txs[0] && txs[..k][1..] == txs[1..][..k - 1];
    }
  }

  /** The block is the one on top already. */
  predicate OnTop(u: Utxo, b: Block) {
    u.applied != [] && u.applied[|u.applied| - 1].hash == b.hash
  }

  /** Nothing is applied yet, or the block names the top one as its parent. */
  predicate Follows(u: Utxo, b: Block) {
    u.applied == [] || u.applied[|u.applied| - 1].hash == b.prev
  }

  /** A block is applied if and only if it is on top already, and then nothing changes, or it follows the top and its
      transactions are valid one after the other, and then the map is what they leave and the block is on top. */
  lemma AppliesIff(u: Utxo, b: Block)
    ensures ApplyBlock(u, b).1.Ok? <==> OnTop(u, b) || (Follows(u, b) && ValidTxs(u.entries, b.txs))
    ensures OnTop(u, b) ==> ApplyBlock(u, b) == (u, Ok([]))
    ensures !OnTop(u, b) && ApplyBlock(u, b).1.Ok? ==>
              var u' := ApplyBlock(u, b).0;
              && u'.entries == SettledAll(u.entries, b.txs)
              && |u'.applied| == |u.applied| + 1 && u'.applied[..|u.applied|] == u.applied && OnTop(u', b)
  {
    ValidTxsApply(u.entries, b.txs);
  }

  /** A block that neither is on top nor follows is refused as misplaced; any other refusal, the input-sum overflow
      apart, changes nothing and is that of the first transaction that fails, with its place and amounts. */
  lemma RefusalMeans(u: Utxo, b: Block) returns (k: nat, f: Failure)
    requires ApplyBlock(u, b).1.Err?
    ensures var (u', r) := ApplyBlock(u, b);
            if !Follows(u, b) then
              u' == u && r == Err(UnexpectedConnect(b.hash, b.prev, Some(u.applied[|u.applied| - 1].hash)))
            else
              FailsAt(u.entries, b.txs, k, f) && (!f.InputSumOverflow? ==> u' == u && r == Err(Said(b.hash, f)))
  {
    k, f := 0, OutputSumOverflow(Txid(0));
    AppliesIff(u, b);
    if Follows(u, b) {
      var a := ApplyTxs(u.entries, b.txs);
      k := TxsFailureMeans(u.entries, b.txs);
      f := a.failure.value;
      AtomicIffNoInputSumOverflow(u, b);
      assert Said(b.hash, f) == ToError(b.hash, f);
    }
  }

  /** The error a failure is reported as. */
  function Said(hash: BlockHash, f: Failure): StateError {
    match f
    case NoSuchPrevout(txid, i, o) => MissingPrevout(hash, txid, i, o)
    case FeeBelowZero(txid, ins, outs) => NegativeFee(hash, txid, ins, outs)
    case OutpointExists(txid, i, o) => DuplicateOutpoint(hash, txid, i, o)
    case other => AmountOverflow(hash, other.txid)
  }
}
