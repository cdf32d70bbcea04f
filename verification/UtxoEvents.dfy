/** What the emitted events mean: a consumer that reads them holds the UTXO map at every moment. */
module UtxoEvents {
  import opened Prelude
  import opened BitcoinDomain
  import opened UtxoSpec

  /** An output that was spent, with the value and script it had, and where it was spent. */
  datatype SpentOutput = SpentOutput(outpoint: OutPoint, entry: Entry, txid: Txid, index: nat)

  /** A consumer holds the unspent outputs and, for reverts, the spent ones in the order of their spends. */
  datatype Consumer = Consumer(unspent: Entries, spent: seq<SpentOutput>)

  /** One event, when it fits: a creation is new, a spend takes what is there, and a revert takes back the latest
      spend or an output that is there. */
  function Read(c: Consumer, event: UtxoEvent): Option<Consumer> {
    match event
    case CreatedEvent(o, value, script) =>
      if o in c.unspent then None else Some(c.(unspent := c.unspent[o := Entry(value, script)]))
    case SpentEvent(o, txid, i) =>
      if o !in c.unspent then None
      else Some(Consumer(c.unspent - {o}, c.spent + [SpentOutput(o, c.unspent[o], txid, i)]))
    case SpendReverted(o, txid, i) =>
      if o in c.unspent || c.spent == [] then None
      else
        var s := c.spent[|c.spent| - 1];
        if s.outpoint != o || s.txid != txid || s.index != i then None
        else Some(Consumer(c.unspent[o := s.entry], c.spent[..|c.spent| - 1]))
    case CreationReverted(o) =>
      if o !in c.unspent then None else Some(c.(unspent := c.unspent - {o}))
  }

  function ReadAll(c: Consumer, events: seq<UtxoEvent>): Option<Consumer>
    decreases |events|
  {
    if events == [] then Some(c)
    else match Read(c, events[0])
      case None => None
      case Some(next) => ReadAll(next, events[1..])
  }

  lemma {:induction false} ReadConcat(c: Consumer, a: seq<UtxoEvent>, b: seq<UtxoEvent>)
    ensures ReadAll(c, a + b) == match ReadAll(c, a) case None => None case Some(next) => ReadAll(next, b)
    decreases |a|
  {
    if a == [] {
      assert a + b == b;
    } else {
      assert (a + b)[0] == a[0] && (a + b)[1..] == a[1..] + b;
      if Read(c, a[0]).Some? {
        ReadConcat(Read(c, a[0]).value, a[1..], b);
      }
    }
  }

  lemma ReadSnoc(c: Consumer, a: seq<UtxoEvent>, event: UtxoEvent)
    ensures ReadAll(c, a + [event]) == match ReadAll(c, a) case None => None case Some(next) => Read(next, event)
  {
    ReadConcat(c, a, [event]);
    if ReadAll(c, a).Some? {
      var next := ReadAll(c, a).value;
      assert [event][1..] == [];
      assert ReadAll(next, [event]) == Read(next, event);
    }
  }

  // ---------------------------------------------------------------- a block's events

  /** The spends a journal records, in order. */
  function SpendsOf(journal: seq<UndoOp>): seq<SpentOutput> {
    if journal == [] then [] else SpendsOf(journal[..|journal| - 1]) + SpendOf(journal[|journal| - 1])
  }

  function SpendOf(op: UndoOp): seq<SpentOutput> {
    match op
    case Created(_) => []
    case Spent(o, entry, txid, i) => [SpentOutput(o, entry, txid, i)]
  }

  lemma SpendsSnoc(journal: seq<UndoOp>, op: UndoOp)
    ensures SpendsOf(journal + [op]) == SpendsOf(journal) + SpendOf(op)
  {
    assert (journal + [op])[..|journal|] == journal;
  }

  lemma {:induction false} SpendsConcat(a: seq<UndoOp>, b: seq<UndoOp>)
    ensures SpendsOf(a + b) == SpendsOf(a) + SpendsOf(b)
    decreases |b|
  {
    if b == [] {
      assert a + b == a;
    } else {
      var front, op := b[..|b| - 1], b[|b| - 1];
      assert a + b == (a + front) + [op] && b == front + [op];
      SpendsConcat(a, front);
      SpendsSnoc(a + front, op);
      SpendsSnoc(front, op);
    }
  }

  /** Reading the spends of a transaction takes exactly its prevouts. */
  lemma {:induction false} ReadSpends(e: Entries, spent: seq<SpentOutput>, tx: Tx, n: nat)
    requires n <= |Prevouts(tx)| && InputFailure(e, tx, n).None?
    ensures ReadAll(Consumer(e, spent), SpendEvents(tx, n))
            == Some(Consumer(Without(e, Prevouts(tx)[..n]), spent + SpendsOf(Spends(e, tx, n))))
  {
    if n == 0 {
      assert Without(e, Prevouts(tx)[..0]) == e;
      assert spent + [] == spent;
    } else {
      var o := Prevouts(tx)[n - 1];
      LastInputFits(e, tx, n);
      ReadSpends(e, spent, tx, n - 1);
      ReadSnoc(Consumer(e, spent), SpendEvents(tx, n - 1), SpentEvent(o, tx.txid, n - 1));
      ReadOneSpend(e, spent, Spends(e, tx, n - 1), Prevouts(tx)[..n - 1], o, tx.txid, n - 1);
    }
  }

  lemma LastInputFits(e: Entries, tx: Tx, n: nat)
    requires 0 < n <= |Prevouts(tx)| && InputFailure(e, tx, n).None?
    ensures var front, o := Prevouts(tx)[..n - 1], Prevouts(tx)[n - 1];
            && InputFailure(e, tx, n - 1).None? && o in e && o !in front && Prevouts(tx)[..n] == front + [o]
            && SpendEvents(tx, n) == SpendEvents(tx, n - 1) + [SpentEvent(o, tx.txid, n - 1)]
            && Spends(e, tx, n) == Spends(e, tx, n - 1) + [Spent(o, e[o], tx.txid, n - 1)]
  {
    TakeOneMore(Prevouts(tx), n - 1);
  }

  lemma ReadOneSpend(e: Entries, spent: seq<SpentOutput>, journal: seq<UndoOp>, front: seq<OutPoint>, o: OutPoint, txid: Txid, i: nat)
    requires o in e && o !in front
    ensures Read(Consumer(Without(e, front), spent + SpendsOf(journal)), SpentEvent(o, txid, i))
            == Some(Consumer(Without(e, front + [o]), spent + SpendsOf(journal + [Spent(o, e[o], txid, i)])))
  {
    SpendOneMore(e, front, o);
    SpendsSnoc(journal, Spent(o, e[o], txid, i));
    Reassociate(spent, SpendsOf(journal), [SpentOutput(o, e[o], txid, i)]);
  }

  lemma SpendOneMore(e: Entries, front: seq<OutPoint>, o: OutPoint)
    requires o in e && o !in front
    ensures o in Without(e, front) && Without(e, front)[o] == e[o]
    ensures Without(e, front) - {o} == Without(e, front + [o])
  {
  }

  /** Reading the creations of a transaction adds exactly its outputs. */
  lemma {:induction false} ReadCreates(e: Entries, spent: seq<SpentOutput>, tx: Tx, n: nat)
    requires n <= |tx.outputs| && OutputFailure(e, tx, n).None?
    ensures ReadAll(Consumer(e, spent), CreateEvents(tx, n)) == Some(Consumer(WithOutputs(e, tx, n), spent))
    ensures SpendsOf(Creates(tx, n)) == []
  {
    if n != 0 {
      var o := OutPoint(tx.txid, n - 1);
      ReadCreates(e, spent, tx, n - 1);
      ReadSnoc(Consumer(e, spent), CreateEvents(tx, n - 1), CreatedEvent(o, tx.outputs[n - 1].value, tx.outputs[n - 1].script));
      SpendsSnoc(Creates(tx, n - 1), Created(o));
      WithOutputsLookup(e, tx, n - 1, o);
    }
  }

  lemma ReadTx(e: Entries, spent: seq<SpentOutput>, tx: Tx)
    requires ApplyTx(e, tx).failure.None?
    ensures var a := ApplyTx(e, tx);
            ReadAll(Consumer(e, spent), TxEvents(tx)) == Some(Consumer(a.entries, spent + SpendsOf(a.journal)))
  {
    var prevouts := Prevouts(tx);
    assert prevouts[..|prevouts|] == prevouts;
    var e1, undo := Without(e, prevouts), Spends(e, tx, |prevouts|);
    ReadSpends(e, spent, tx, |prevouts|);
    ReadCreates(e1, spent + SpendsOf(undo), tx, |tx.outputs|);
    ReadConcat(Consumer(e, spent), SpendEvents(tx, |prevouts|), CreateEvents(tx, |tx.outputs|));
    SpendsConcat(undo, Creates(tx, |tx.outputs|));
    assert SpendsOf(undo) + [] == SpendsOf(undo);
  }

  /** Reading the events of an accepted block over the map before it gives the map after it. */
  lemma {:induction false} ReadBlock(e: Entries, spent: seq<SpentOutput>, txs: seq<Tx>)
    requires ApplyTxs(e, txs).failure.None?
    ensures var a := ApplyTxs(e, txs);
            ReadAll(Consumer(e, spent), BlockEvents(txs)) == Some(Consumer(a.entries, spent + SpendsOf(a.journal)))
    decreases |txs|
  {
    if txs == [] {
      assert spent + [] == spent;
    } else {
      var first, rest := ApplyTx(e, txs[0]), txs[1..];
      assert ApplyTxs(e, txs) == After(first, rest);
      var then_ := ApplyTxs(first.entries, rest);
      ReadTx(e, spent, txs[0]);
      ReadBlock(first.entries, spent + SpendsOf(first.journal), rest);
      ReadConcat(Consumer(e, spent), TxEvents(txs[0]), BlockEvents(rest));
      SpendsConcat(first.journal, then_.journal);
      Reassociate(spent, SpendsOf(first.journal), SpendsOf(then_.journal));
    }
  }

  // ---------------------------------------------------------------- which events a block emits

  /** Transaction `k` holds the outpoint at input `i`. */
  predicate SpentAt(txs: seq<Tx>, k: nat, o: OutPoint, txid: Txid, i: nat)
    requires k < |txs|
  {
    !txs[k].coinbase && txs[k].txid == txid && i < |txs[k].inputs| && txs[k].inputs[i] == o
  }

  /** Transaction `k` has that output at the outpoint's index. */
  predicate MadeAt(txs: seq<Tx>, k: nat, o: OutPoint, value: nat, script: nat)
    requires k < |txs|
  {
    && txs[k].txid == o.txid && o.vout < |txs[k].outputs|
    && txs[k].outputs[o.vout].value == value && txs[k].outputs[o.vout].script == script
  }

  /** An event that belongs to a transaction of the block. */
  ghost predicate Belongs(txs: seq<Tx>, event: UtxoEvent) {
    match event
    case SpentEvent(o, txid, i) => exists k | 0 <= k < |txs| :: SpentAt(txs, k, o, txid, i)
    case CreatedEvent(o, value, script) => exists k | 0 <= k < |txs| :: MadeAt(txs, k, o, value, script)
    case _ => false
  }

  lemma {:induction false} SpendEventsAre(tx: Tx, n: nat, event: UtxoEvent)
    requires n <= |Prevouts(tx)|
    ensures |SpendEvents(tx, n)| == n
    ensures event in SpendEvents(tx, n) <==>
              event.SpentEvent? && event.spendingTxid == tx.txid && event.inputIndex < n && Prevouts(tx)[event.inputIndex] == event.outpoint
  {
    if n != 0 {
      SpendEventsAre(tx, n - 1, event);
    }
  }

  lemma {:induction false} CreateEventsAre(tx: Tx, n: nat, event: UtxoEvent)
    requires n <= |tx.outputs|
    ensures |CreateEvents(tx, n)| == n
    ensures event in CreateEvents(tx, n) <==>
              && event.CreatedEvent? && event.outpoint.txid == tx.txid && event.outpoint.vout < n
              && tx.outputs[event.outpoint.vout].value == event.value && tx.outputs[event.outpoint.vout].script == event.script
  {
    if n != 0 {
      CreateEventsAre(tx, n - 1, event);
    }
  }

  lemma TxEventsAre(tx: Tx, event: UtxoEvent)
    ensures event in TxEvents(tx) <==> Belongs([tx], event)
    ensures |TxEvents(tx)| == (if tx.coinbase then 0 else |tx.inputs|) + |tx.outputs|
  {
    SpendEventsAre(tx, |Prevouts(tx)|, event);
    CreateEventsAre(tx, |tx.outputs|, event);
    match event {
      case SpentEvent(o, txid, i) => assert Belongs([tx], event) <==> SpentAt([tx], 0, o, txid, i);
      case CreatedEvent(o, value, script) => assert Belongs([tx], event) <==> MadeAt([tx], 0, o, value, script);
      case _ =>
    }
  }

  lemma BelongsFirstOrLater(txs: seq<Tx>, event: UtxoEvent)
    requires txs != []
    ensures Belongs(txs, event) <==> Belongs([txs[0]], event) || Belongs(txs[1..], event)
  {
    var one, rest := [txs[0]], txs[1..];
    match event {
      case SpentEvent(o, txid, i) =>
        if Belongs(one, event) {
          assert SpentAt(one, 0, o, txid, i) && SpentAt(txs, 0, o, txid, i);
        }
        if Belongs(rest, event) {
          var k :| 0 <= k < |rest| && SpentAt(rest, k, o, txid, i);
          assert SpentAt(txs, k + 1, o, txid, i);
        }
        if Belongs(txs, event) {
          var k :| 0 <= k < |txs| && SpentAt(txs, k, o, txid, i);
          assert if k == 0 then SpentAt(one, 0, o, txid, i) else SpentAt(rest, k - 1, o, txid, i);
        }
      case CreatedEvent(o, value, script) =>
        if Belongs(one, event) {
          assert MadeAt(one, 0, o, value, script) && MadeAt(txs, 0, o, value, script);
        }
        if Belongs(rest, event) {
          var k :| 0 <= k < |rest| && MadeAt(rest, k, o, value, script);
          assert MadeAt(txs, k + 1, o, value, script);
        }
        if Belongs(txs, event) {
          var k :| 0 <= k < |txs| && MadeAt(txs, k, o, value, script);
          assert if k == 0 then MadeAt(one, 0, o, value, script) else MadeAt(rest, k - 1, o, value, script);
        }
      case _ =>
    }
  }

  function Count(txs: seq<Tx>): nat {
    if txs == [] then 0 else (if txs[0].coinbase then 0 else |txs[0].inputs|) + |txs[0].outputs| + Count(txs[1..])
  }

  /** A block emits one event per input and output: each spend names the transaction and the input position that hold
      the outpoint, and each creation the output at its own index. */
  lemma {:induction false} BlockEventsAre(txs: seq<Tx>, event: UtxoEvent)
    ensures event in BlockEvents(txs) <==> Belongs(txs, event)
    ensures |BlockEvents(txs)| == Count(txs)
    decreases |txs|
  {
    if txs != [] {
      TxEventsAre(txs[0], event);
      BlockEventsAre(txs[1..], event);
      BelongsFirstOrLater(txs, event);
    }
  }

  // ---------------------------------------------------------------- reverting answers applying

  /** How a revert answers an event. */
  function Answer(event: UtxoEvent): UtxoEvent {
    match event
    case CreatedEvent(o, _, _) => CreationReverted(o)
    case SpentEvent(o, txid, i) => SpendReverted(o, txid, i)
    case other => other
  }

  /** The journal records the events one by one. */
  ghost predicate Records(journal: seq<UndoOp>, events: seq<UtxoEvent>) {
    |journal| == |events| && forall i | 0 <= i < |events| :: RevertEvent(journal[i]) == Answer(events[i])
  }

  lemma RecordsConcat(a: seq<UndoOp>, b: seq<UndoOp>, x: seq<UtxoEvent>, y: seq<UtxoEvent>)
    requires Records(a, x) && Records(b, y)
    ensures Records(a + b, x + y)
  {
  }

  lemma {:induction false} SpendsRecorded(e: Entries, tx: Tx, n: nat)
    requires n <= |Prevouts(tx)| && forall o | o in Prevouts(tx)[..n] :: o in e
    ensures Records(Spends(e, tx, n), SpendEvents(tx, n))
  {
    if n != 0 {
      TakeOneMore(Prevouts(tx), n - 1);
      SpendsRecorded(e, tx, n - 1);
    }
  }

  lemma {:induction false} CreatesRecorded(tx: Tx, n: nat)
    requires n <= |tx.outputs|
    ensures Records(Creates(tx, n), CreateEvents(tx, n))
  {
    if n != 0 {
      CreatesRecorded(tx, n - 1);
    }
  }

  lemma {:induction false} BlockRecorded(e: Entries, txs: seq<Tx>)
    requires ApplyTxs(e, txs).failure.None?
    ensures Records(ApplyTxs(e, txs).journal, BlockEvents(txs))
    decreases |txs|
  {
    if txs != [] {
      var tx, first := txs[0], ApplyTx(e, txs[0]);
      assert ApplyTxs(e, txs) == After(first, txs[1..]);
      assert Prevouts(tx)[..|Prevouts(tx)|] == Prevouts(tx);
      SpendsRecorded(e, tx, |Prevouts(tx)|);
      CreatesRecorded(tx, |tx.outputs|);
      RecordsConcat(Spends(e, tx, |Prevouts(tx)|), Creates(tx, |tx.outputs|),
                    SpendEvents(tx, |Prevouts(tx)|), CreateEvents(tx, |tx.outputs|));
      BlockRecorded(first.entries, txs[1..]);
      RecordsConcat(first.journal, ApplyTxs(first.entries, txs[1..]).journal, TxEvents(tx), BlockEvents(txs[1..]));
    }
  }

  lemma {:induction false} RevertEventsAt(journal: seq<UndoOp>, i: nat)
    ensures |RevertEvents(journal)| == |journal|
    ensures i < |journal| ==> RevertEvents(journal)[i] == RevertEvent(journal[|journal| - 1 - i])
    decreases |journal|
  {
    if journal != [] {
      RevertEventsAt(journal[..|journal| - 1], if i == 0 then 0 else i - 1);
    }
  }

  /** Reverting a block emits the answers to its events in reverse order. */
  lemma RevertAnswers(u: Utxo, b: Block, i: nat)
    requires Extends(u, b) && ApplyBlock(u, b).1.Ok?
    ensures var (u', r) := ApplyBlock(u, b);
            var back := RevertBlock(u', b.hash).1;
            && back.Ok? && |back.value| == |r.value|
            && (i < |r.value| ==> back.value[i] == Answer(r.value[|r.value| - 1 - i]))
  {
    RevertUndoesApply(u, b);
    BlockRecorded(u.entries, b.txs);
    RevertEventsAt(ApplyTxs(u.entries, b.txs).journal, i);
  }

  // ---------------------------------------------------------------- states

  function SpentStack(applied: seq<AppliedBlock>): seq<SpentOutput> {
    if applied == [] then [] else SpentStack(applied[..|applied| - 1]) + SpendsOf(applied[|applied| - 1].undo)
  }

  /** What a consumer that has read everything holds. */
  function Informed(u: Utxo): Consumer {
    Consumer(u.entries, SpentStack(u.applied))
  }

  lemma ApplyInforms(u: Utxo, b: Block)
    requires ApplyBlock(u, b).1.Ok?
    ensures var (u', r) := ApplyBlock(u, b); ReadAll(Informed(u), r.value) == Some(Informed(u'))
  {
    if Extends(u, b) {
      ReadBlock(u.entries, SpentStack(u.applied), b.txs);
      var u' := ApplyBlock(u, b).0;
      assert u'.applied[..|u'.applied| - 1] == u.applied;
    }
  }

  lemma {:induction false} ReadReverts(e: Entries, spent: seq<SpentOutput>, journal: seq<UndoOp>)
    requires Rollback(e, journal).stuck.None?
    ensures ReadAll(Consumer(e, spent + SpendsOf(journal)), RevertEvents(journal))
            == Some(Consumer(Rollback(e, journal).entries, spent))
    decreases |journal|
  {
    if journal == [] {
      assert spent + [] == spent;
    } else {
      var front, op := journal[..|journal| - 1], journal[|journal| - 1];
      var c, one := Consumer(e, spent + SpendsOf(journal)), UndoOne(e, op);
      ReadRevert(e, spent + SpendsOf(front), op);
      assert spent + SpendsOf(journal) == (spent + SpendsOf(front)) + SpendOf(op);
      ReadReverts(one.entries, spent, front);
      var events := RevertEvents(journal);
      assert events[0] == RevertEvent(op) && events[1..] == RevertEvents(front);
    }
  }

  lemma ReadRevert(e: Entries, spent: seq<SpentOutput>, op: UndoOp)
    requires UndoOne(e, op).stuck.None?
    ensures Read(Consumer(e, spent + SpendOf(op)), RevertEvent(op)) == Some(Consumer(UndoOne(e, op).entries, spent))
  {
    assert (spent + SpendOf(op))[..|spent|] == spent;
    assert op.Created? ==> spent + SpendOf(op) == spent;
  }

  lemma RevertInforms(u: Utxo, hash: BlockHash)
    requires RevertBlock(u, hash).1.Ok?
    ensures var (u', r) := RevertBlock(u, hash); ReadAll(Informed(u), r.value) == Some(Informed(u'))
  {
    ReadReverts(u.entries, SpentStack(u.applied[..|u.applied| - 1]), u.applied[|u.applied| - 1].undo);
  }
}
