/** What applying and reverting a block means for the UTXO map.

    `ApplyTxs` says, without stepping through a loop, where a block's
    transactions stop, what map they leave and which undo journal has been
    written by then.  `Rollback` runs a journal backwards.  The lemmas relate the
    two: a journal is the exact inverse of the changes it records, with the one
    exception of an input-sum overflow, where the last spent entry has left the
    map but has not reached the journal. */
module UtxoSpec {
  import opened Prelude
  import opened BitcoinDomain

  datatype Entry = Entry(value: Sats, script: nat)
  type Entries = map<OutPoint, Entry>

  datatype UndoOp =
    | Created(outpoint: OutPoint)
    | Spent(outpoint: OutPoint, entry: Entry, spendingTxid: Txid, inputIndex: nat)

  datatype AppliedBlock = AppliedBlock(hash: BlockHash, undo: seq<UndoOp>)

  datatype Utxo = Utxo(entries: Entries, applied: seq<AppliedBlock>)

  datatype UtxoEvent =
    | CreatedEvent(outpoint: OutPoint, value: Sats, script: nat)
    | SpentEvent(outpoint: OutPoint, spendingTxid: Txid, inputIndex: nat)
    | SpendReverted(outpoint: OutPoint, spendingTxid: Txid, inputIndex: nat)
    | CreationReverted(outpoint: OutPoint)

  /** Why a transaction is refused. `index` is the position of the offending input or output. */
  datatype Failure =
    | InputIndexOverflow(txid: Txid, index: nat)
    | NoSuchPrevout(txid: Txid, index: nat, outpoint: OutPoint)
    | InputSumOverflow(txid: Txid, index: nat, outpoint: OutPoint)
    | OutputSumOverflow(txid: Txid)
    | FeeBelowZero(txid: Txid, inputSats: nat, outputSats: nat)
    | OutputIndexOverflow(txid: Txid, index: nat)
    | OutpointExists(txid: Txid, index: nat, outpoint: OutPoint)

  function ToError(blockHash: BlockHash, f: Failure): StateError {
    match f
    case InputIndexOverflow(txid, _) => AmountOverflow(blockHash, txid)
    case NoSuchPrevout(txid, i, o) => MissingPrevout(blockHash, txid, i, o)
    case InputSumOverflow(txid, _, _) => AmountOverflow(blockHash, txid)
    case OutputSumOverflow(txid) => AmountOverflow(blockHash, txid)
    case FeeBelowZero(txid, ins, outs) => NegativeFee(blockHash, txid, ins, outs)
    case OutputIndexOverflow(txid, _) => AmountOverflow(blockHash, txid)
    case OutpointExists(txid, i, o) => DuplicateOutpoint(blockHash, txid, i, o)
  }

  // ---------------------------------------------------------------- one transaction

  /** The outputs a transaction spends; a coinbase spends none. */
  function Prevouts(tx: Tx): seq<OutPoint> {
    if tx.coinbase then [] else tx.inputs
  }

  function Without(e: Entries, spent: seq<OutPoint>): Entries {
    e - (set o | o in spent)
  }

  function InputSum(e: Entries, spent: seq<OutPoint>): nat
    requires forall o | o in spent :: o in e
  {
    if spent == [] then 0
    else InputSum(e, spent[..|spent| - 1]) + e[spent[|spent| - 1]].value
  }

  function OutputSum(outputs: seq<Output>): nat {
    if outputs == [] then 0
    else OutputSum(outputs[..|outputs| - 1]) + outputs[|outputs| - 1].value
  }

  /** Inputs that can all be spent together: present, pairwise distinct, indexable, and
      with every running total inside 64 bits. */
  ghost predicate Spendable(e: Entries, spent: seq<OutPoint>) {
    && |spent| <= U32_MAX + 1
    && (forall o | o in spent :: o in e)
    && (forall i, j | 0 <= i < j < |spent| :: spent[i] != spent[j])
    && InputSum(e, spent) <= U64_MAX
  }

  lemma SpendableStep(e: Entries, spent: seq<OutPoint>, o: OutPoint)
    ensures Spendable(e, spent + [o]) <==>
              && Spendable(e, spent) && |spent| <= U32_MAX && o in e && o !in spent
              && InputSum(e, spent) + e[o].value <= U64_MAX
  {
    var all := spent + [o];
    assert all[..|spent|] == spent && all[|spent|] == o;
    if Spendable(e, all) {
      assert forall i | 0 <= i < |spent| :: spent[i] == all[i];
      assert o in all;
    }
  }

  /** The first reason one of the first `n` inputs cannot be spent. */
  function InputFailure(e: Entries, tx: Tx, n: nat): (f: Option<Failure>)
    requires n <= |Prevouts(tx)|
    ensures f.None? ==> forall o | o in Prevouts(tx)[..n] :: o in e
    ensures f.Some? ==> f.value.InputIndexOverflow? || f.value.NoSuchPrevout? || f.value.InputSumOverflow?
    ensures f.Some? ==> f.value.index < n
                        && InputFailure(e, tx, f.value.index).None?
    ensures f.Some? && f.value.InputSumOverflow? ==>
              f.value.outpoint == Prevouts(tx)[f.value.index] && f.value.outpoint in e
              && f.value.outpoint !in Prevouts(tx)[..f.value.index]
    decreases n
  {
    if n == 0 then None
    else
      var before := InputFailure(e, tx, n - 1);
      var o := Prevouts(tx)[n - 1];
      if before.Some? then before
      else if n - 1 > U32_MAX then Some(InputIndexOverflow(tx.txid, n - 1))
      else if o !in e || o in Prevouts(tx)[..n - 1] then Some(NoSuchPrevout(tx.txid, n - 1, o))
      else if InputSum(e, Prevouts(tx)[..n - 1]) + e[o].value > U64_MAX then Some(InputSumOverflow(tx.txid, n - 1, o))
      else
        TakeOneMore(Prevouts(tx), n - 1);
        None
  }

  /** No input fails exactly when the inputs are spendable together. */
  lemma {:induction false} NoInputFailureIffSpendable(e: Entries, tx: Tx, n: nat)
    requires n <= |Prevouts(tx)|
    ensures InputFailure(e, tx, n).None? <==> Spendable(e, Prevouts(tx)[..n])
  {
    if n != 0 {
      NoInputFailureIffSpendable(e, tx, n - 1);
      TakeOneMore(Prevouts(tx), n - 1);
      SpendableStep(e, Prevouts(tx)[..n - 1], Prevouts(tx)[n - 1]);
    }
  }

  lemma {:induction false} FirstInputFailure(e: Entries, tx: Tx, n: nat, m: nat)
    requires n <= m <= |Prevouts(tx)| && InputFailure(e, tx, n).Some?
    ensures InputFailure(e, tx, m) == InputFailure(e, tx, n)
  {
    if n < m {
      FirstInputFailure(e, tx, n, m - 1);
    }
  }

  /** The map with the first `n` outputs of `tx` added. */
  function WithOutputs(e: Entries, tx: Tx, n: nat): Entries
    requires n <= |tx.outputs|
  {
    if n == 0 then e
    else WithOutputs(e, tx, n - 1)[OutPoint(tx.txid, n - 1) := Entry(tx.outputs[n - 1].value, tx.outputs[n - 1].script)]
  }

  /** Looking up an output map: the new outputs under their own index, everything else as before. */
  lemma {:induction false} WithOutputsLookup(e: Entries, tx: Tx, n: nat, o: OutPoint)
    requires n <= |tx.outputs|
    ensures o in WithOutputs(e, tx, n) <==> o in e || (o.txid == tx.txid && o.vout < n)
    ensures o.txid == tx.txid && o.vout < n ==>
              WithOutputs(e, tx, n)[o] == Entry(tx.outputs[o.vout].value, tx.outputs[o.vout].script)
    ensures o in e && !(o.txid == tx.txid && o.vout < n) ==> WithOutputs(e, tx, n)[o] == e[o]
  {
    if n != 0 {
      WithOutputsLookup(e, tx, n - 1, o);
    }
  }

  /** The first reason one of the first `n` outputs cannot be created. */
  function OutputFailure(e: Entries, tx: Tx, n: nat): (f: Option<Failure>)
    requires n <= |tx.outputs|
    ensures f.Some? ==> f.value.OutputIndexOverflow? || f.value.OutpointExists?
    ensures f.Some? ==> f.value.index < n && OutputFailure(e, tx, f.value.index).None?
    decreases n
  {
    if n == 0 then None
    else
      var before := OutputFailure(e, tx, n - 1);
      var o := OutPoint(tx.txid, n - 1);
      if before.Some? then before
      else if n - 1 > U32_MAX then Some(OutputIndexOverflow(tx.txid, n - 1))
      else if o in e then Some(OutpointExists(tx.txid, n - 1, o))
      else None
  }

  lemma {:induction false} FirstOutputFailure(e: Entries, tx: Tx, n: nat, m: nat)
    requires n <= m <= |tx.outputs| && OutputFailure(e, tx, n).Some?
    ensures OutputFailure(e, tx, m) == OutputFailure(e, tx, n)
  {
    if n < m {
      FirstOutputFailure(e, tx, n, m - 1);
    }
  }

  lemma {:induction false} NoOutputFailureIffFresh(e: Entries, tx: Tx, n: nat)
    requires n <= |tx.outputs|
    ensures OutputFailure(e, tx, n).None? <==> n <= U32_MAX + 1 && forall i | 0 <= i < n :: OutPoint(tx.txid, i) !in e
  {
    if n != 0 {
      NoOutputFailureIffFresh(e, tx, n - 1);
    }
  }

  function Spends(e: Entries, tx: Tx, n: nat): (journal: seq<UndoOp>)
    requires n <= |Prevouts(tx)| && forall o | o in Prevouts(tx)[..n] :: o in e
    ensures |journal| == n
  {
    if n == 0 then []
    else
      var o := Prevouts(tx)[n - 1];
      TakeOneMore(Prevouts(tx), n - 1);
      Spends(e, tx, n - 1) + [Spent(o, e[o], tx.txid, n - 1)]
  }

  function Creates(tx: Tx, n: nat): (journal: seq<UndoOp>)
    requires n <= |tx.outputs|
    ensures |journal| == n
  {
    if n == 0 then [] else Creates(tx, n - 1) + [Created(OutPoint(tx.txid, n - 1))]
  }

  /** Where a list of transactions stops: the map it leaves, the journal written so far,
      and the failure, if any. */
  datatype Attempt = Attempt(entries: Entries, journal: seq<UndoOp>, failure: Option<Failure>)

  function ApplyTx(e: Entries, tx: Tx): Attempt {
    var spent := Prevouts(tx);
    var bad := InputFailure(e, tx, |spent|);
    assert spent[..|spent|] == spent;
    if bad.Some? then
      var i := bad.value.index;
      Attempt(Without(e, spent[..if bad.value.InputSumOverflow? then i + 1 else i]), Spends(e, tx, i), bad)
    else
      var e1 := Without(e, spent);
      var ins := InputSum(e, spent);
      var outs := OutputSum(tx.outputs);
      var undo := Spends(e, tx, |spent|);
      if outs > U64_MAX then Attempt(e1, undo, Some(OutputSumOverflow(tx.txid)))
      else if !tx.coinbase && outs > ins then Attempt(e1, undo, Some(FeeBelowZero(tx.txid, ins, outs)))
      else
        var dup := OutputFailure(e1, tx, |tx.outputs|);
        var n := if dup.Some? then dup.value.index else |tx.outputs|;
        Attempt(WithOutputs(e1, tx, n), undo + Creates(tx, n), dup)
  }

  /** A transaction the ledger rules accept, said without an order of checks. */
  ghost predicate ValidTx(e: Entries, tx: Tx) {
    var spent := Prevouts(tx);
    && Spendable(e, spent)
    && OutputSum(tx.outputs) <= U64_MAX
    && (!tx.coinbase ==> OutputSum(tx.outputs) <= InputSum(e, spent))
    && |tx.outputs| <= U32_MAX + 1
    && forall i | 0 <= i < |tx.outputs| :: OutPoint(tx.txid, i) !in Without(e, spent)
  }

  /** A transaction goes through exactly when it is valid, and then it removes exactly its
      prevouts and adds exactly its outputs. */
  lemma ApplyTxIsValidTx(e: Entries, tx: Tx)
    ensures ApplyTx(e, tx).failure.None? <==> ValidTx(e, tx)
    ensures ValidTx(e, tx) ==> ApplyTx(e, tx).entries == WithOutputs(Without(e, Prevouts(tx)), tx, |tx.outputs|)
  {
    var spent := Prevouts(tx);
    assert spent[..|spent|] == spent;
    NoInputFailureIffSpendable(e, tx, |spent|);
    NoOutputFailureIffFresh(Without(e, spent), tx, |tx.outputs|);
  }

  // ---------------------------------------------------------------- a block's transactions

  function ApplyTxs(e: Entries, txs: seq<Tx>): Attempt
    decreases |txs|, 0
  {
    if txs == [] then Attempt(e, [], None)
    else After(ApplyTx(e, txs[0]), txs[1..])
  }

  function After(first: Attempt, rest: seq<Tx>): Attempt
    decreases |rest|, 1
  {
    if first.failure.Some? then first
    else
      var then_ := ApplyTxs(first.entries, rest);
      then_.(journal := first.journal + then_.journal)
  }

  function SpendEvents(tx: Tx, n: nat): seq<UtxoEvent>
    requires n <= |Prevouts(tx)|
  {
    if n == 0 then [] else SpendEvents(tx, n - 1) + [SpentEvent(Prevouts(tx)[n - 1], tx.txid, n - 1)]
  }

  function CreateEvents(tx: Tx, n: nat): seq<UtxoEvent>
    requires n <= |tx.outputs|
  {
    if n == 0 then []
    else CreateEvents(tx, n - 1)
         + [CreatedEvent(OutPoint(tx.txid, n - 1), tx.outputs[n - 1].value, tx.outputs[n - 1].script)]
  }

  /** The events a block emits when it is applied: spends, then creations, per transaction. */
  function TxEvents(tx: Tx): seq<UtxoEvent> {
    SpendEvents(tx, |Prevouts(tx)|) + CreateEvents(tx, |tx.outputs|)
  }

  function BlockEvents(txs: seq<Tx>): seq<UtxoEvent> {
    if txs == [] then [] else TxEvents(txs[0]) + BlockEvents(txs[1..])
  }

  // ---------------------------------------------------------------- running a journal backwards

  /** The map after undoing a journal from its end, and the outpoint at which undoing got stuck. */
  datatype Undone = Undone(entries: Entries, stuck: Option<OutPoint>)

  function UndoOne(e: Entries, op: UndoOp): Undone {
    match op
    case Created(o) => if o in e then Undone(e - {o}, None) else Undone(e, Some(o))
    case Spent(o, entry, _, _) => Undone(e[o := entry], if o in e then Some(o) else None)
  }

  function Rollback(e: Entries, journal: seq<UndoOp>): Undone
    decreases |journal|
  {
    if journal == [] then Undone(e, None)
    else
      var one := UndoOne(e, journal[|journal| - 1]);
      if one.stuck.Some? then one else Rollback(one.entries, journal[..|journal| - 1])
  }

  lemma {:induction false} RollbackConcat(e: Entries, a: seq<UndoOp>, b: seq<UndoOp>)
    ensures Rollback(e, b).stuck.None? ==> Rollback(e, a + b) == Rollback(Rollback(e, b).entries, a)
    ensures Rollback(e, b).stuck.Some? ==> Rollback(e, a + b) == Rollback(e, b)
    decreases |b|
  {
    if b == [] {
      assert a + b == a;
    } else {
      assert (a + b)[|a + b| - 1] == b[|b| - 1];
      assert (a + b)[..|a + b| - 1] == a + b[..|b| - 1];
      var one := UndoOne(e, b[|b| - 1]);
      if one.stuck.None? {
        RollbackConcat(one.entries, a, b[..|b| - 1]);
      }
    }
  }

  lemma PutBack(e: Entries, front: seq<OutPoint>, o: OutPoint)
    requires o in e && o !in front
    ensures o !in Without(e, front + [o]) && Without(e, front + [o])[o := e[o]] == Without(e, front)
  {
  }

  lemma TakeAway(e: Entries, o: OutPoint, entry: Entry)
    requires o !in e
    ensures e[o := entry] - {o} == e
  {
  }

  lemma {:induction false} SpendsUndone(e: Entries, tx: Tx, n: nat)
    requires n <= |Prevouts(tx)| && InputFailure(e, tx, n).None?
    ensures Rollback(Without(e, Prevouts(tx)[..n]), Spends(e, tx, n)) == Undone(e, None)
  {
    var spent := Prevouts(tx);
    if n == 0 {
      assert Without(e, spent[..0]) == e;
    } else {
      SpendsUndone(e, tx, n - 1);
      TakeOneMore(spent, n - 1);
      PutBack(e, spent[..n - 1], spent[n - 1]);
    }
  }

  lemma {:induction false} CreatesUndone(e: Entries, tx: Tx, n: nat)
    requires n <= |tx.outputs| && OutputFailure(e, tx, n).None?
    ensures Rollback(WithOutputs(e, tx, n), Creates(tx, n)) == Undone(e, None)
  {
    if n != 0 {
      CreatesUndone(e, tx, n - 1);
      var o := OutPoint(tx.txid, n - 1);
      assert Creates(tx, n)[..n - 1] == Creates(tx, n - 1);
      WithOutputsLookup(e, tx, n - 1, o);
      TakeAway(WithOutputs(e, tx, n - 1), o, Entry(tx.outputs[n - 1].value, tx.outputs[n - 1].script));
    }
  }

  predicate IsOverflow(a: Attempt) {
    a.failure.Some? && a.failure.value.InputSumOverflow?
  }

  /** Undoing a journal gives back the starting map.  At an input-sum overflow this needs the
      removed entry, `lost`, to be put back first: it is neither in the map nor in the journal. */
  ghost predicate Inverts(a: Attempt, lost: Entry, e: Entries) {
    if IsOverflow(a) then
      && a.failure.value.outpoint !in a.entries
      && Rollback(a.entries[a.failure.value.outpoint := lost], a.journal) == Undone(e, None)
    else
      Rollback(a.entries, a.journal) == Undone(e, None)
  }

  lemma FailedSpendInverts(e: Entries, tx: Tx) returns (lost: Entry)
    requires InputFailure(e, tx, |Prevouts(tx)|).Some?
    ensures Inverts(ApplyTx(e, tx), lost, e)
  {
    lost := Entry(0, 0);
    var spent := Prevouts(tx);
    var bad := InputFailure(e, tx, |spent|).value;
    SpendsUndone(e, tx, bad.index);
    if bad.InputSumOverflow? {
      lost := e[bad.outpoint];
      TakeOneMore(spent, bad.index);
      PutBack(e, spent[..bad.index], bad.outpoint);
    }
  }

  lemma TxJournalInverts(e: Entries, tx: Tx) returns (lost: Entry)
    ensures Inverts(ApplyTx(e, tx), lost, e)
  {
    lost := Entry(0, 0);
    var spent := Prevouts(tx);
    assert spent[..|spent|] == spent;
    if InputFailure(e, tx, |spent|).Some? {
      lost := FailedSpendInverts(e, tx);
    } else {
      SpendsUndone(e, tx, |spent|);
      var e1 := Without(e, spent);
      var dup := OutputFailure(e1, tx, |tx.outputs|);
      var n := if dup.Some? then dup.value.index else |tx.outputs|;
      CreatesUndone(e1, tx, n);
      RollbackConcat(WithOutputs(e1, tx, n), Spends(e, tx, |spent|), Creates(tx, n));
    }
  }

  lemma {:induction false} JournalInverts(e: Entries, txs: seq<Tx>) returns (lost: Entry)
    ensures Inverts(ApplyTxs(e, txs), lost, e)
    decreases |txs|
  {
    lost := Entry(0, 0);
    if txs != [] {
      lost := TxJournalInverts(e, txs[0]);
      var first := ApplyTx(e, txs[0]);
      if first.failure.None? {
        lost := JournalInverts(first.entries, txs[1..]);
        var rest := ApplyTxs(first.entries, txs[1..]);
        RollbackConcat(if IsOverflow(rest) then rest.entries[rest.failure.value.outpoint := lost] else rest.entries,
                       first.journal, rest.journal);
      }
    }
  }

  /** Undoing a journal without the lost entry: when the journal did not create it, everything
      but that entry comes back; otherwise undoing gets stuck exactly there. */
  lemma {:induction false} RollbackWithoutLost(e: Entries, o: OutPoint, lost: Entry, journal: seq<UndoOp>, start: Entries)
    requires o !in e && Rollback(e[o := lost], journal) == Undone(start, None)
    ensures Created(o) !in journal ==> o in start && Rollback(e, journal) == Undone(start - {o}, None)
    ensures Created(o) in journal ==> Rollback(e, journal).stuck == Some(o)
    decreases |journal|
  {
    if journal == [] {
      assert e[o := lost] - {o} == e;
    } else {
      var op := journal[|journal| - 1];
      var front := journal[..|journal| - 1];
      assert journal == front + [op];
      if op != Created(o) {
        assert op.outpoint != o;
        var e1 := UndoOne(e, op).entries;
        assert UndoOne(e[o := lost], op).entries == e1[o := lost];
        RollbackWithoutLost(e1, o, lost, front, start);
      }
    }
  }

  // ---------------------------------------------------------------- whole blocks

  /** `apply_block` on a UTXO state: the new state and the events or the error. */
  function ApplyBlock(u: Utxo, b: Block): (Utxo, Result<seq<UtxoEvent>, StateError>) {
    var tip := Tip(u);
    if tip == Some(b.hash) then (u, Ok([]))
    else if tip.Some? && b.prev != tip.value then (u, Err(UnexpectedConnect(b.hash, b.prev, tip)))
    else
      var a := ApplyTxs(u.entries, b.txs);
      if a.failure.None? then
        (Utxo(a.entries, u.applied + [AppliedBlock(b.hash, a.journal)]), Ok(BlockEvents(b.txs)))
      else
        var undone := Rollback(a.entries, a.journal);
        (Utxo(undone.entries, u.applied),
         Err(if undone.stuck.Some? then InconsistentUtxo(undone.stuck.value) else ToError(b.hash, a.failure.value)))
  }

  function Tip(u: Utxo): Option<BlockHash> {
    if u.applied == [] then None else Some(u.applied[|u.applied| - 1].hash)
  }

  function RevertEvent(op: UndoOp): UtxoEvent {
    match op
    case Created(o) => CreationReverted(o)
    case Spent(o, _, txid, i) => SpendReverted(o, txid, i)
  }

  function RevertEvents(journal: seq<UndoOp>): seq<UtxoEvent> {
    if journal == [] then []
    else [RevertEvent(journal[|journal| - 1])] + RevertEvents(journal[..|journal| - 1])
  }

  /** `revert_block` on a UTXO state. */
  function RevertBlock(u: Utxo, hash: BlockHash): (Utxo, Result<seq<UtxoEvent>, StateError>) {
    if Tip(u) != Some(hash) then (u, Err(OutOfOrderDisconnect(hash, Tip(u))))
    else
      var top := u.applied[|u.applied| - 1];
      var undone := Rollback(u.entries, top.undo);
      (Utxo(undone.entries, u.applied[..|u.applied| - 1]),
       if undone.stuck.Some? then Err(InconsistentUtxo(undone.stuck.value)) else Ok(RevertEvents(top.undo)))
  }

  /** Whether `b` extends the state, so that its transactions are looked at at all. */
  predicate Extends(u: Utxo, b: Block) {
    Tip(u) != Some(b.hash) && (Tip(u).Some? ==> b.prev == Tip(u).value)
  }

  /** The promise of an atomic block: a refused block changes nothing and is refused for the
      reason its transactions failed. */
  ghost predicate Atomic(u: Utxo, b: Block) {
    var (u', r) := ApplyBlock(u, b);
    r.Err? && Extends(u, b) ==> u' == u && r.error == ToError(b.hash, ApplyTxs(u.entries, b.txs).failure.value)
  }

  /** A refused block is atomic unless it is refused because its input sum overflows.  In
      that case an entry from before the block disappears, or, when the block itself had created
      that entry, undoing gets stuck on it. */
  lemma AtomicIffNoInputSumOverflow(u: Utxo, b: Block)
    ensures Atomic(u, b) <==> !(Extends(u, b) && IsOverflow(ApplyTxs(u.entries, b.txs)))
    ensures Extends(u, b) && IsOverflow(ApplyTxs(u.entries, b.txs)) ==>
              var a := ApplyTxs(u.entries, b.txs);
              var o := a.failure.value.outpoint;
              if Created(o) in a.journal then
                ApplyBlock(u, b).1 == Err(InconsistentUtxo(o))
              else
                o in u.entries
                && ApplyBlock(u, b) == (u.(entries := u.entries - {o}), Err(AmountOverflow(b.hash, a.failure.value.txid)))
  {
    var a := ApplyTxs(u.entries, b.txs);
    var lost := JournalInverts(u.entries, b.txs);
    if IsOverflow(a) {
      RollbackWithoutLost(a.entries, a.failure.value.outpoint, lost, a.journal, u.entries);
    }
  }

  /** Reverting the block just applied restores the state exactly. */
  lemma RevertUndoesApply(u: Utxo, b: Block)
    requires Extends(u, b) && ApplyBlock(u, b).1.Ok?
    ensures RevertBlock(ApplyBlock(u, b).0, b.hash)
         == (u, Ok(RevertEvents(ApplyTxs(u.entries, b.txs).journal)))
  {
    var lost := JournalInverts(u.entries, b.txs);
    var a := ApplyTxs(u.entries, b.txs);
    var u' := ApplyBlock(u, b).0;
    assert u'.applied[..|u'.applied| - 1] == u.applied;
  }

  /** Applying a list of blocks, each of which must extend the state and succeed. */
  function ApplyAll(u: Utxo, blocks: seq<Block>): Option<Utxo>
    decreases |blocks|
  {
    if blocks == [] then Some(u)
    else if !Extends(u, blocks[0]) || ApplyBlock(u, blocks[0]).1.Err? then None
    else ApplyAll(ApplyBlock(u, blocks[0]).0, blocks[1..])
  }

  /** Reverting the given blocks, last one first. */
  function RevertAll(u: Utxo, blocks: seq<Block>): Option<Utxo>
    decreases |blocks|
  {
    if blocks == [] then Some(u)
    else
      var (u', r) := RevertBlock(u, blocks[|blocks| - 1].hash);
      if r.Err? then None else RevertAll(u', blocks[..|blocks| - 1])
  }

  lemma {:induction false} RevertAllLastStep(u: Utxo, blocks: seq<Block>)
    requires blocks != [] && RevertAll(u, blocks[1..]).Some?
    ensures RevertAll(u, blocks) == RevertAll(RevertAll(u, blocks[1..]).value, blocks[..1])
    decreases |blocks|
  {
    if |blocks| > 1 {
      var (u', r) := RevertBlock(u, blocks[|blocks| - 1].hash);
      var front := blocks[..|blocks| - 1];
      assert blocks[1..][..|blocks| - 2] == front[1..];
      RevertAllLastStep(u', front);
      assert front[..1] == blocks[..1];
    } else {
      assert blocks[..1] == blocks;
    }
  }

  /** Reverting is the exact inverse of applying, for stacks of blocks of any depth. */
  lemma {:induction false} RevertAllUndoesApplyAll(u: Utxo, blocks: seq<Block>)
    requires ApplyAll(u, blocks).Some?
    ensures RevertAll(ApplyAll(u, blocks).value, blocks) == Some(u)
    decreases |blocks|
  {
    if blocks != [] {
      var u1 := ApplyBlock(u, blocks[0]).0;
      RevertAllUndoesApplyAll(u1, blocks[1..]);
      RevertAllLastStep(ApplyAll(u, blocks).value, blocks);
      RevertUndoesApply(u, blocks[0]);
      assert blocks[..1][..0] == [];
    }
  }
}
