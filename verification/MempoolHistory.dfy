/** What the package graph holds after any run, said of the events alone. */
module MempoolHistory {
  import opened Prelude
  import opened BitcoinDomain
  import opened MempoolGraphSpec

  /** The addition at `i` was accepted and the transaction was not removed after it. */
  ghost predicate Stands(events: seq<Event>, i: nat, t: Txid) {
    && i < |events| && Accepted(events, i) && events[i].txid == t
    && forall j | i < j < |events| :: events[j] != Removed(t)
  }

  lemma StandsSnoc(events: seq<Event>, i: nat, t: Txid)
    requires events != []
    ensures var last := |events| - 1;
            Stands(events, i, t) <==>
              if i == last then Accepted(events, last) && events[last].txid == t
              else Stands(events[..last], i, t) && events[last] != Removed(t)
  {
    var last := |events| - 1;
    var front := events[..last];
    if i < last {
      assert front[..i] == events[..i];
      assert Accepted(front, i) <==> Accepted(events, i);
    }
    if i < last && Stands(events, i, t) {
      assert forall j | i < j < |front| :: front[j] == events[j];
    }
  }

  /** A transaction is present if and only if its last accepted addition came after its last removal, and it then has the
      inputs, fee and size of that addition. */
  lemma {:induction false} PresentIff(events: seq<Event>, t: Txid)
    ensures t in Run(events).present <==> exists i: nat :: Stands(events, i, t)
    ensures forall i: nat | Stands(events, i, t) :: t in Run(events).txs && Run(events).txs[t] == events[i].tx
    decreases |events|
  {
    if events != [] {
      var last := |events| - 1;
      var front := events[..last];
      PresentIff(front, t);
      forall i: nat
        ensures Stands(events, i, t) <==>
                  if i == last then Accepted(events, last) && events[last].txid == t
                  else Stands(front, i, t) && events[last] != Removed(t)
      {
        StandsSnoc(events, i, t);
      }
      assert t in Run(front).present && events[last] != Removed(t) ==> exists i: nat :: Stands(events, i, t) by {
        if t in Run(front).present && events[last] != Removed(t) {
          var i: nat :| Stands(front, i, t);
          assert Stands(events, i, t);
        }
      }
      assert Accepted(events, last) && events[last].txid == t ==> Stands(events, last, t);
    }
  }

  /** Some accepted addition spent one of the outputs, by another transaction. */
  ghost predicate Conflicted(events: seq<Event>, txid: Txid, inputs: seq<OutPoint>) {
    exists o, t :: o in inputs && t != txid && EverSpent(events, o, t)
  }

  /** The named transaction is another one that, in an accepted addition, spent one of the outputs. */
  ghost predicate NamesSpender(events: seq<Event>, txid: Txid, inputs: seq<OutPoint>, named: Txid) {
    named != txid && exists o :: o in inputs && EverSpent(events, o, named)
  }

  lemma ConflictedIff(events: seq<Event>, txid: Txid, inputs: seq<OutPoint>)
    ensures Conflicts(Run(events).spentBy, txid, inputs) != {} <==> Conflicted(events, txid, inputs)
  {
    var conflicts := Conflicts(Run(events).spentBy, txid, inputs);
    if conflicts != {} {
      var edge :| edge in conflicts;
      ConflictsAreHistory(events, txid, inputs, edge.0, edge.1);
    }
    if Conflicted(events, txid, inputs) {
      var o, t :| o in inputs && t != txid && EverSpent(events, o, t);
      ConflictsAreHistory(events, txid, inputs, o, t);
    }
  }

  lemma NamesIff(events: seq<Event>, txid: Txid, inputs: seq<OutPoint>, named: Txid)
    ensures Names(Conflicts(Run(events).spentBy, txid, inputs), named) <==> NamesSpender(events, txid, inputs, named)
  {
    var conflicts := Conflicts(Run(events).spentBy, txid, inputs);
    if Names(conflicts, named) {
      var o :| (o, named) in conflicts;
      ConflictsAreHistory(events, txid, inputs, o, named);
    }
    if NamesSpender(events, txid, inputs, named) {
      var o :| o in inputs && EverSpent(events, o, named);
      ConflictsAreHistory(events, txid, inputs, o, named);
    }
  }

  /** An addition goes through if and only if the transaction is present, and then nothing changes, or its size fits in 64
      bits and its evidence, if any, names another spender of one of its inputs; the classification is that of the
      evidence, and there is none without a conflict. */
  lemma AddAcceptedIff(events: seq<Event>, txid: Txid, tx: GraphTx, e: Evidence)
    ensures var g := Run(events);
            var (g', r) := Add(g, txid, tx, e);
            && (r.Ok? <==> txid in g.present
                           || (tx.vsize <= U64_MAX && (!e.NoEvidence? ==> NamesSpender(events, txid, tx.inputs, e.replaced))))
            && (txid in g.present ==> g' == g && r == Ok(Update([], None)))
            && (r.Err? ==> g' == g && r.error == if tx.vsize > U64_MAX then TransactionTooLarge(txid) else InvalidReplacementEvidence(txid))
            && (r.Ok? && txid !in g.present ==>
                  && (r.value.classification.Some? <==> Conflicted(events, txid, tx.inputs))
                  && (r.value.classification.Some? ==>
                        r.value.classification.value
                        == match e case NoEvidence => Inferred case Direct(_) => Observed case Reconciled(_) => ReconciledConflict))
  {
    ConflictedIff(events, txid, tx.inputs);
    if !e.NoEvidence? {
      NamesIff(events, txid, tx.inputs, e.replaced);
    }
  }

  // ---------------------------------------------------------------- packages

  /** One of the two spends an output of the other. */
  predicate Paid(txs: Known, a: Txid, b: Txid) {
    || (a in txs && exists i | 0 <= i < |txs[a].inputs| :: txs[a].inputs[i].txid == b)
    || (b in txs && exists i | 0 <= i < |txs[b].inputs| :: txs[b].inputs[i].txid == a)
  }

  ghost predicate PaidAt(txs: Known, present: set<Txid>, p: seq<Txid>, i: nat)
    requires 0 < i < |p|
  {
    p[i - 1] in present && p[i] in present && Paid(txs, p[i - 1], p[i])
  }

  /** Present transactions from one to the other, each paid by or paying its neighbour. */
  ghost predicate Leads(txs: Known, present: set<Txid>, p: seq<Txid>, a: Txid, b: Txid) {
    && p != [] && p[0] == a && p[|p| - 1] == b && a in present
    && forall i {:trigger PaidAt(txs, present, p, i)} | 0 < i < |p| :: PaidAt(txs, present, p, i)
  }

  /** The package of a transaction is what is connected to it by payments among the present ones. */
  lemma PackageIff(txs: Known, present: set<Txid>, t: Txid, x: Txid)
    ensures x in Component(txs, present, t) <==> x in present && exists p :: Leads(txs, present, p, t, x)
  {
    forall p
      ensures Leads(txs, present, p, t, x) <==> Walk(txs, present, p, t, x)
    {
      LeadsIsWalk(txs, present, p, t, x);
    }
  }

  lemma LeadsIsWalk(txs: Known, present: set<Txid>, p: seq<Txid>, a: Txid, b: Txid)
    ensures Leads(txs, present, p, a, b) <==> Walk(txs, present, p, a, b)
  {
    if Leads(txs, present, p, a, b) {
      forall i | 0 <= i < |p| - 1
        ensures Joined(txs, present, p, i)
      {
        assert PaidAt(txs, present, p, i + 1);
      }
    }
    if Walk(txs, present, p, a, b) {
      forall i | 0 < i < |p|
        ensures PaidAt(txs, present, p, i)
      {
        assert Joined(txs, present, p, i - 1);
      }
    }
  }
}
