/** Conservation of value: what a block does to the total value of the UTXO map. */
module UtxoValue {
  import opened BitcoinDomain
  import opened UtxoSpec

  /** The value held by all unspent outputs together. */
  ghost function Total(e: Entries): nat {
    if e == map[] then 0
    else
      var o :| o in e;
      e[o].value + Total(e - {o})
  }

  lemma {:induction false} TotalRemove(e: Entries, o: OutPoint)
    requires o in e
    ensures Total(e) == e[o].value + Total(e - {o})
    decreases |e|
  {
    var p :| p in e && Total(e) == e[p].value + Total(e - {p});
    if p != o {
      TotalRemove(e - {p}, o);
      TotalRemove(e - {o}, p);
      assert e - {p} - {o} == e - {o} - {p};
    }
  }

  lemma TotalAdd(e: Entries, o: OutPoint, entry: Entry)
    requires o !in e
    ensures Total(e[o := entry]) == Total(e) + entry.value
  {
    TotalRemove(e[o := entry], o);
    TakeAway(e, o, entry);
  }

  lemma {:induction false} TotalWithout(e: Entries, spent: seq<OutPoint>)
    requires Spendable(e, spent)
    ensures Total(Without(e, spent)) + InputSum(e, spent) == Total(e)
    decreases |spent|
  {
    if spent == [] {
      assert Without(e, spent) == e;
    } else {
      var front, o := spent[..|spent| - 1], spent[|spent| - 1];
      assert spent == front + [o];
      SpendableStep(e, front, o);
      TotalWithout(e, front);
      TotalRemove(Without(e, front), o);
      assert Without(e, front) - {o} == Without(e, spent);
    }
  }

  lemma {:induction false} TotalWithOutputs(e: Entries, tx: Tx, n: nat)
    requires n <= |tx.outputs| && OutputFailure(e, tx, n).None?
    ensures Total(WithOutputs(e, tx, n)) == Total(e) + OutputSum(tx.outputs[..n])
  {
    if n != 0 {
      TotalWithOutputs(e, tx, n - 1);
      WithOutputsLookup(e, tx, n - 1, OutPoint(tx.txid, n - 1));
      TotalAdd(WithOutputs(e, tx, n - 1), OutPoint(tx.txid, n - 1), Entry(tx.outputs[n - 1].value, tx.outputs[n - 1].script));
      assert tx.outputs[..n][..n - 1] == tx.outputs[..n - 1];
    }
  }

  /** What a transaction leaves to the miner. */
  function Fee(e: Entries, tx: Tx): int
    requires forall o | o in Prevouts(tx) :: o in e
  {
    if tx.coinbase then 0 else InputSum(e, tx.inputs) - OutputSum(tx.outputs)
  }

  function Minted(txs: seq<Tx>): nat {
    if txs == [] then 0 else (if txs[0].coinbase then OutputSum(txs[0].outputs) else 0) + Minted(txs[1..])
  }

  /** The fees of a block, transaction by transaction. */
  function Fees(e: Entries, txs: seq<Tx>): int
    requires ApplyTxs(e, txs).failure.None?
    decreases |txs|
  {
    if txs == [] then 0
    else
      assert ApplyTxs(e, txs) == After(ApplyTx(e, txs[0]), txs[1..]);
      ApplyTxIsValidTx(e, txs[0]);
      Fee(e, txs[0]) + Fees(ApplyTx(e, txs[0]).entries, txs[1..])
  }

  lemma TxConservesValue(e: Entries, tx: Tx)
    requires ApplyTx(e, tx).failure.None?
    ensures ValidTx(e, tx) && Fee(e, tx) >= 0
    ensures Total(ApplyTx(e, tx).entries) + Fee(e, tx) == Total(e) + (if tx.coinbase then OutputSum(tx.outputs) else 0)
  {
    ApplyTxIsValidTx(e, tx);
    var spent := Prevouts(tx);
    var e1 := Without(e, spent);
    assert spent[..|spent|] == spent;
    TotalWithout(e, spent);
    TotalWithOutputs(e1, tx, |tx.outputs|);
    assert tx.outputs[..|tx.outputs|] == tx.outputs;
  }

  /** An accepted block keeps value: what is unspent afterwards plus the fees is what was
      unspent before plus what its coinbases created, and no transaction has a negative fee. */
  lemma {:induction false} BlockConservesValue(e: Entries, txs: seq<Tx>)
    requires ApplyTxs(e, txs).failure.None?
    ensures Total(ApplyTxs(e, txs).entries) + Fees(e, txs) == Total(e) + Minted(txs)
    ensures Fees(e, txs) >= 0
    decreases |txs|
  {
    if txs != [] {
      TxConservesValue(e, txs[0]);
      BlockConservesValue(ApplyTx(e, txs[0]).entries, txs[1..]);
    }
  }
}
