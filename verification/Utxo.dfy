/** The canonical UTXO projection with its per-block undo journals, changed in place. */
module UtxoState {
  import opened Prelude
  import opened BitcoinDomain
  import opened UtxoSpec

  class UtxoState {
    var entries: Entries
    var applied: seq<AppliedBlock>

    function State(): Utxo
      reads this
    {
      Utxo(entries, applied)
    }

    constructor ()
      ensures State() == Utxo(map[], [])
    {
      entries, applied := map[], [];
    }

    /** A copy that shares nothing with the original. */
    constructor Clone(other: UtxoState)
      ensures State() == other.State()
    {
      entries, applied := other.entries, other.applied;
    }

    /** Applies one block in transaction and input order; on failure the journal is run backwards. */
    method ApplyBlock(block: Block) returns (r: Result<seq<UtxoEvent>, StateError>)
      modifies this
      ensures (State(), r) == UtxoSpec.ApplyBlock(old(State()), block)
    {
      var hash := block.hash;
      if applied != [] && applied[|applied| - 1].hash == hash {
        return Ok([]);
      }
      if applied != [] && block.prev != applied[|applied| - 1].hash {
        return Err(UnexpectedConnect(hash, block.prev, Some(applied[|applied| - 1].hash)));
      }
      var failure, undo, events := ApplyTransactions(block.txs);
      if failure.Some? {
        var stuck := RollbackPartial(undo);
        if stuck.Some? {
          return Err(InconsistentUtxo(stuck.value));
        }
        return Err(ToError(hash, failure.value));
      }
      applied := applied + [AppliedBlock(hash, undo)];
      return Ok(events);
    }

    /** Reverts the current tip in reverse operation order. */
    method RevertBlock(hash: BlockHash) returns (r: Result<seq<UtxoEvent>, StateError>)
      modifies this
      ensures (State(), r) == UtxoSpec.RevertBlock(old(State()), hash)
    {
      var currentTip := if applied == [] then None else Some(applied[|applied| - 1].hash);
      if currentTip != Some(hash) {
        return Err(OutOfOrderDisconnect(hash, currentTip));
      }
      var undo := applied[|applied| - 1].undo;
      applied := applied[..|applied| - 1];
      ghost var start := entries;
      var events := [];
      var i := |undo|;
      assert undo[..i] == undo;
      while i > 0
        invariant 0 <= i <= |undo|
        invariant Rollback(start, undo) == Rollback(entries, undo[..i])
        invariant RevertEvents(undo) == events + RevertEvents(undo[..i])
        invariant applied == old(applied)[..|old(applied)| - 1]
      {
        i := i - 1;
        assert undo[..i + 1][..i] == undo[..i];
        match undo[i] {
          case Created(outpoint) =>
            if outpoint !in entries {
              return Err(InconsistentUtxo(outpoint));
            }
            entries := entries - {outpoint};
          case Spent(outpoint, entry, _, _) =>
            var present := outpoint in entries;
            entries := entries[outpoint := entry];
            if present {
              return Err(InconsistentUtxo(outpoint));
            }
        }
        ghost var before := events;
        events := events + [RevertEvent(undo[i])];
        assert events + RevertEvents(undo[..i]) == before + RevertEvents(undo[..i + 1]);
      }
      assert events == RevertEvents(undo);
      return Ok(events);
    }

    method ApplyTransactions(txs: seq<Tx>)
      returns (failure: Option<Failure>, undo: seq<UndoOp>, events: seq<UtxoEvent>)
      modifies this`entries
      ensures Attempt(entries, undo, failure) == ApplyTxs(old(entries), txs)
      ensures failure.None? ==> events == BlockEvents(txs)
    {
      failure, undo, events := None, [], [];
      ghost var start := entries;
      assert txs[0..] == txs;
      for k := 0 to |txs|
        invariant failure.None?
        invariant ApplyTxs(start, txs) == After(Attempt(entries, undo, None), txs[k..])
        invariant BlockEvents(txs) == events + BlockEvents(txs[k..])
      {
        assert txs[k..][0] == txs[k] && txs[k..][1..] == txs[k + 1..];
        Regroup(undo, ApplyTx(entries, txs[k]), txs[k + 1..]);
        var txUndo, txEvents;
        failure, txUndo, txEvents := ApplyTransaction(txs[k]);
        undo := undo + txUndo;
        if failure.Some? {
          return;
        }
        assert events + BlockEvents(txs[k..]) == (events + txEvents) + BlockEvents(txs[k + 1..]);
        events := events + txEvents;
      }
      assert txs[|txs|..] == [] && undo + [] == undo;
    }

    /** Journal entries written before the rest of the block stay in front of it. */
    static lemma Regroup(undo: seq<UndoOp>, one: Attempt, rest: seq<Tx>)
      ensures var whole := After(one, rest);
              After(one.(journal := undo + one.journal), rest) == whole.(journal := undo + whole.journal)
    {
      if one.failure.None? {
        var then_ := ApplyTxs(one.entries, rest);
        assert (undo + one.journal) + then_.journal == undo + (one.journal + then_.journal);
      }
    }

    method ApplyTransaction(tx: Tx) returns (failure: Option<Failure>, undo: seq<UndoOp>, events: seq<UtxoEvent>)
      modifies this`entries
      ensures Attempt(entries, undo, failure) == ApplyTx(old(entries), tx)
      ensures failure.None? ==> events == TxEvents(tx)
    {
      var inputSats;
      failure, inputSats, undo, events := SpendInputs(tx);
      if failure.Some? {
        return;
      }
      var outputSats := SumOutputs(tx.outputs);
      if outputSats.None? {
        return Some(OutputSumOverflow(tx.txid)), undo, events;
      }
      if !tx.coinbase && outputSats.value > inputSats {
        return Some(FeeBelowZero(tx.txid, inputSats, outputSats.value)), undo, events;
      }
      var outUndo, outEvents;
      failure, outUndo, outEvents := CreateOutputs(tx);
      undo, events := undo + outUndo, events + outEvents;
    }

    method SpendInputs(tx: Tx)
      returns (failure: Option<Failure>, inputSats: nat, undo: seq<UndoOp>, events: seq<UtxoEvent>)
      modifies this`entries
      ensures failure == InputFailure(old(entries), tx, |Prevouts(tx)|)
      ensures failure.Some? ==>
                var i := failure.value.index;
                entries == Without(old(entries), Prevouts(tx)[..if failure.value.InputSumOverflow? then i + 1 else i])
                && undo == Spends(old(entries), tx, i)
      ensures failure.None? ==>
                && Prevouts(tx)[..|Prevouts(tx)|] == Prevouts(tx)
                && entries == Without(old(entries), Prevouts(tx))
                && undo == Spends(old(entries), tx, |Prevouts(tx)|)
                && inputSats == InputSum(old(entries), Prevouts(tx))
                && events == SpendEvents(tx, |Prevouts(tx)|)
    {
      ghost var e := entries;
      var inputs := if tx.coinbase then [] else tx.inputs;
      failure, inputSats, undo, events := None, 0, [], [];
      assert inputs[..0] == [] && Without(e, []) == e;
      for i := 0 to |inputs|
        invariant InputFailure(e, tx, i).None?
        invariant entries == Without(e, inputs[..i])
        invariant undo == Spends(e, tx, i)
        invariant inputSats == InputSum(e, inputs[..i])
        invariant events == SpendEvents(tx, i)
      {
        var o := inputs[i];
        if InputFailure(e, tx, i + 1).Some? {
          FirstInputFailure(e, tx, i + 1, |inputs|);
        }
        if i > U32_MAX {
          return Some(InputIndexOverflow(tx.txid, i)), inputSats, undo, events;
        }
        if o !in entries {
          return Some(NoSuchPrevout(tx.txid, i, o)), inputSats, undo, events;
        }
        var entry := entries[o];
        entries := entries - {o};
        SpendNext(e, inputs, i);
        if inputSats + entry.value > U64_MAX {
          return Some(InputSumOverflow(tx.txid, i, o)), inputSats, undo, events;
        }
        inputSats := inputSats + entry.value;
        undo := undo + [Spent(o, entry, tx.txid, i)];
        events := events + [SpentEvent(o, tx.txid, i)];
      }
      assert inputs[..|inputs|] == inputs;
    }

    static lemma SpendNext(e: Entries, inputs: seq<OutPoint>, i: nat)
      requires i < |inputs|
      ensures Without(e, inputs[..i]) - {inputs[i]} == Without(e, inputs[..i + 1])
      ensures inputs[..i + 1] == inputs[..i] + [inputs[i]] && inputs[..i + 1][..i] == inputs[..i]
    {
      assert inputs[..i + 1] == inputs[..i] + [inputs[i]];
    }

    method SumOutputs(outputs: seq<Output>) returns (total: Option<nat>)
      ensures total == if OutputSum(outputs) <= U64_MAX then Some(OutputSum(outputs)) else None
    {
      var sum := 0;
      for i := 0 to |outputs|
        invariant sum == OutputSum(outputs[..i]) <= U64_MAX
      {
        assert outputs[..i + 1][..i] == outputs[..i];
        OutputSumGrows(outputs, i + 1);
        if sum + outputs[i].value > U64_MAX {
          return None;
        }
        sum := sum + outputs[i].value;
      }
      assert outputs[..|outputs|] == outputs;
      return Some(sum);
    }

    static lemma {:induction false} OutputSumGrows(outputs: seq<Output>, n: nat)
      requires n <= |outputs|
      ensures OutputSum(outputs[..n]) <= OutputSum(outputs)
      decreases |outputs|
    {
      if n < |outputs| {
        OutputSumGrows(outputs[..|outputs| - 1], n);
        assert outputs[..|outputs| - 1][..n] == outputs[..n];
      } else {
        assert outputs[..n] == outputs;
      }
    }

    method CreateOutputs(tx: Tx) returns (failure: Option<Failure>, undo: seq<UndoOp>, events: seq<UtxoEvent>)
      modifies this`entries
      ensures failure == OutputFailure(old(entries), tx, |tx.outputs|)
      ensures var n := if failure.Some? then failure.value.index else |tx.outputs|;
              entries == WithOutputs(old(entries), tx, n) && undo == Creates(tx, n)
      ensures failure.None? ==> events == CreateEvents(tx, |tx.outputs|)
    {
      ghost var e := entries;
      failure, undo, events := None, [], [];
      for i := 0 to |tx.outputs|
        invariant OutputFailure(e, tx, i).None?
        invariant entries == WithOutputs(e, tx, i)
        invariant undo == Creates(tx, i)
        invariant events == CreateEvents(tx, i)
      {
        if OutputFailure(e, tx, i + 1).Some? {
          FirstOutputFailure(e, tx, i + 1, |tx.outputs|);
        }
        if i > U32_MAX {
          return Some(OutputIndexOverflow(tx.txid, i)), undo, events;
        }
        var o := OutPoint(tx.txid, i);
        WithOutputsLookup(e, tx, i, o);
        if o in entries {
          return Some(OutpointExists(tx.txid, i, o)), undo, events;
        }
        var output := tx.outputs[i];
        entries := entries[o := Entry(output.value, output.script)];
        undo := undo + [Created(o)];
        events := events + [CreatedEvent(o, output.value, output.script)];
      }
    }

    method RollbackPartial(undo: seq<UndoOp>) returns (stuck: Option<OutPoint>)
      modifies this`entries
      ensures Undone(entries, stuck) == Rollback(old(entries), undo)
    {
      ghost var start := entries;
      var i := |undo|;
      assert undo[..i] == undo;
      while i > 0
        invariant 0 <= i <= |undo|
        invariant Rollback(start, undo) == Rollback(entries, undo[..i])
      {
        i := i - 1;
        assert undo[..i + 1][..i] == undo[..i];
        match undo[i] {
          case Created(outpoint) =>
            if outpoint !in entries {
              return Some(outpoint);
            }
            entries := entries - {outpoint};
          case Spent(outpoint, entry, _, _) =>
            var present := outpoint in entries;
            entries := entries[outpoint := entry];
            if present {
              return Some(outpoint);
            }
        }
      }
      return None;
    }
  }
}
